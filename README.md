# Driver Report e-mail grid — a Dafny model

The web service takes a Driver Report workbook (`.xlsx`) exported from a
driver-safety performance app and turns it into a small grid for an e-mail:
one row per driver with the columns **Name**, **Violations** (the names of
the violation types the driver has, comma separated) and **Violations
Count** (the total of those violations). This project models the report
transformation inside the upload handler and proves what it computes:

1. the file-name check (`.xlsx` only) and the schema check (all nine fixed
   columns present), with their error outcomes;
2. the row filter (some violation column strictly positive, empty cells
   counting as 0);
3. the group-by on `Name` with column sums, in ascending name order;
4. the `Violations` label and `Violations Count` of each group, and the
   projection to the three grid columns;
5. the output file name (`.xlsx` replaced by `_grid.xlsx`);
6. the loop that fits each column's width to its longest cell.

Modules: `Strings` (the Python string operations the code uses, plus
`str.split`, which `app.py` never calls and which serves only to state how
the joined label reads back), `Report` (cells,
sheet, the fixed column list, the schema check and row reading), `Aggregate`
(filter and group-by-sum), `Derive` (label, count, projection), `Pipeline`
(the upload handler end to end), `Grid` (the column-width loop).

Modelling choices:
- A cell is a number (`int`), text, or empty. An empty cell is pandas' NaN:
  it fails every `> 0` test and adds nothing to a sum, so it counts as 0.
- Text in a violation column makes pandas' `> 0` comparison raise; the model
  reports this as the error `NotNumeric`. The handler does not catch it.
- A row with an empty `Name` is dropped by the group-by (pandas drops NaN
  keys). Text names are ordered by Python's code-point order, numeric names
  by value.
- A row shorter than the header reads as empty in the missing positions; a
  header holding a name twice is read at its first position.
- Reading the workbook is outside the model: the handler's input is the
  sanitised file name and either the parsed first sheet or `None` when the
  reader raised.

The model follows `app.py` as written, which is narrower than a general
report tool: the code uses one hard-coded column list and requires all of it (no
user-selected subset, no "missing columns" note), has no per-column count
mode in the label, accepts only the `Name` column (no `Driver Name` alias),
does not trim header or name whitespace, reads only `.xlsx` (no CSV with
skipped lines), and outputs groups in ascending name order (pandas'
`groupby` default), not in order of first appearance.

## Model

| member | source | states |
|---|---|---|
| `Report.Load` | app.py:83-114 | the run fails as "not a valid Driver Report" exactly when some required column is missing; with all present it fails on text in a violation column exactly when there is some; otherwise one entry per row with the row's Name cell and its violation counts, empty cells as 0 |
| `Report.ViolationColumnsShape` | app.py:83 | the eight violation columns are distinct, non-empty and contain no comma |
| `Aggregate.Filter` | app.py:102 | a row survives exactly when some violation count is strictly positive; with `FilterAppend` and `FilterSingle` (a single row is kept exactly when it has a positive count) this fixes the result as the order-keeping subsequence of such rows |
| `Aggregate.FilterAppend` | app.py:102 | the filter works row by row (filtering a concatenation concatenates the results), so survivors keep their input order; together with `FilterSingle` it determines the result row by row |
| `Aggregate.GroupRows` | app.py:105-114 | the groups are named, with names strictly ascending, hence each name once |
| `Aggregate.GroupRowsNames` | app.py:105-114 | the set of group names is exactly the set of non-empty Name cells of the rows |
| `Aggregate.GroupRowsTotals` | app.py:105-114 | each group's sums are, column by column, the sums over the rows with that name |
| `Aggregate.GroupRowsConserves` | app.py:105-114 | summing a column over all groups equals summing it over all named rows |
| `Aggregate.GroupRowsPositive` | app.py:102-114 | with no negative counts, every group built from filtered rows has no negative sum and some positive one |
| `Derive.PositiveNamesExactly` | app.py:117 | a column is listed in the label exactly when its summed value is strictly positive |
| `Derive.PositiveNamesInOrder` | app.py:117 | the listed columns keep the order of the column list, whatever their magnitudes |
| `Derive.LabelSplits` | app.py:117 | when some value is positive, splitting the label at ", " gives back exactly the listed column names |
| `Derive.LabelEmpty` | app.py:117 | the label is empty exactly when no value is positive |
| `Derive.PositiveTotal` | app.py:120 | the count is non-negative, and positive exactly when some value is positive |
| `Derive.CountMatchesLabel` | app.py:117-120 | the count equals the sum of the values of exactly the columns named in the label |
| `Derive.SummarizeMeaning` | app.py:117-123 | for the fixed column list: a grid row keeps its group's name; its label lists exactly the positive columns, in list order, separated by ", "; its count is the sum of exactly those columns and is positive exactly when the label is non-empty |
| `Pipeline.UploadOutcome` | app.py:47-126 | a name not ending in ".xlsx" is refused before anything else; an unreadable workbook or a missing column gives "not a valid Driver Report"; the run succeeds exactly when all columns are present and numeric; a successful run's output name ends in "_grid.xlsx" |
| `Pipeline.OutputNameSuffix` | app.py:126 | replacing every ".xlsx" by "_grid.xlsx" in a name ending in ".xlsx" gives a name ending in "_grid.xlsx" |
| `Pipeline.OutputNameOfStem` | app.py:126 | for any stem in which ".xlsx" does not occur (dots allowed, as in "report.v2"), "stem.xlsx" becomes exactly "stem_grid.xlsx" |
| `Pipeline.ProcessRows` | app.py:102-123 | grid names strictly ascending; the set of grid names is the set of non-empty names among the filtered rows; each row's label and count are derived from that name's column sums over the filtered rows; column totals are conserved by grouping |
| `Pipeline.ProcessRowsNonEmpty` | app.py:102-120 | for a sheet with all columns, numeric violation cells and no negative number, the run succeeds and every grid row has a non-empty label and a positive count |
| `Grid.ColumnMaxLengths` | app.py:151-157 | each column's computed maximum is at least the length of every cell's text in it and equal to one of them (0 with no cells) |
| `Grid.GridColumnLengths` | app.py:128-157 | for the written grid, each column's maximum is at least its header's length and every cell's text length, and equals one of them |
| `Strings.SplitJoin` | app.py:117 | splitting a ", "-join of a non-empty list of parts gives the parts back when no part contains a comma (the empty list joins to "", which splits into [""]) |
| `Strings.ReplaceAllSuffix` | app.py:126 | replacing a self-disjoint pattern in a string ending with it gives a string ending with the replacement |

## Left out

- The Flask routes, HTML pages and server start-up: presentation and plumbing, no logic to check.
- Saving the upload, `pd.read_excel`, writing the workbook, and the download route: file and library I/O. The parsed first sheet is an input; the grid rows and the output name are the output.
- `secure_filename`: a library call; the model takes the sanitised name as given.
- Centre alignment, the header fill colour and the thin borders: attribute assignments on spreadsheet cells with nothing to compute.
- The column width `(max_length + 2) * 1.1`: floating point; the model computes the integer `max_length` of each column and does not store widths on a worksheet object.
- Float columns: the model's counts are integers, so `str` of a count is its decimal form. pandas reads a violation column holding any empty cell (or any fractional value) as float64; then its sums, and every `Violations Count` they feed, are floats and are written as "3.0" rather than "3". The model does not capture this textual difference. It changes the fitted length of the count column only when a count's text is longer than the 16-character header "Violations Count".
- Cell types other than number, text or empty (dates, booleans).
- A Name column mixing numbers and text: the model puts all numeric names before all text names; how pandas orders (or refuses) such a mix is not modelled.
