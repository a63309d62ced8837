# Bibliometrics cleaner and fitter, modelled in Dafny

This project models the two deterministic stages of a small bibliometrics
pipeline and proves what each of them promises.

- **The cleaner** (`src/clean_data.py`) reads a table of researcher records.
  It strips surrounding whitespace from every header name. It renames six
  known headers to canonical snake_case names and passes every other name
  through. It coerces the five numeric columns cell by cell: every `%` is
  deleted and the rest is parsed, and text that does not parse becomes
  missing. Finally it drops every row whose `document_count` or
  `total_citations` is missing.
- **The fitter** (`src/run_regression.py`) checks that both required columns
  exist. It highlights up to three most-cited researchers, ties going to the
  earlier row. It lays integer ticks over the document-count range and writes
  a seven-line summary report.

Modules, one per concept:

| file | module | what it holds |
|---|---|---|
| wrappers.dfy | `Wrappers` | `Option`, `Result` |
| tables.dfy | `Tables` | cells, tables, the canonical column names, the missing-required-columns set |
| headers.dfy | `Headers` | `str.strip()` on header names, the rename table |
| numbers.dfy | `Numbers` | `%` deletion, the decimal parser, per-cell coercion |
| cleaner.dfy | `Cleaner` | the `Frame` class updated in place by the coercion loop, the row filter, the whole cleaner |
| selection.dfy | `Selection` | the stable top-k selection behind the top-3 highlight |
| ticks.dfy | `Ticks` | integer x-ticks |
| report.dfy | `Report` | the summary report, and a reader used to state its layout |
| fitter.dfy | `Fitter` | the fitter's column check, highlight and ticks, in `main`'s order |

The coercion loop of the cleaner updates the DataFrame in place, one column
at a time. It is therefore the class `Cleaner.Frame`, whose methods
`CoerceColumn` and `CoerceNumericColumns` are proved against the
specification function `Cleaner.CoerceNumeric`. Header stripping, renaming
and row filtering are whole-table transforms and are functions.
`Cleaner.Clean` runs the four steps and is proved equal to
`Cleaner.CleanSpec`. The lemmas about the cleaner are stated on
`CleanSpec`.

The number parser of the source is a library routine that is not modelled.
It is replaced by the decimal grammar `[+|-] (digit+ ["." digit*] | "."
digit+)` with nothing before or after it. `Numbers.IsDecimal` states that
grammar directly, and `Numbers.ParseNumber` is a parser for it, proved to
accept exactly the grammar and to compute each decimal's value. Number
formatting (`:.6f`) in the report is the function parameter `fmt`.

Error cases, as the code raises them:
- The fitter has no dedicated empty-dataset check. With no rows, the tick
  computation (`np.nanmin` on an empty column, `src/run_regression.py:27`)
  raises. This is `Fitter.FitError.EmptyColumn`.
- The cleaner has no column check of its own. It raises when a required
  column is absent after renaming, because `dropna(subset=...)` names a
  column that does not exist. This is `Cleaner.CleanError.MissingSubset`.
- The code has no zero-variance policy for R², and the model has none.

## Model

| member | source | states |
|---|---|---|
| `Headers.StripShape` | src/clean_data.py:16 | a stripped name is the original with only whitespace cut from its two ends, and it neither starts nor ends with whitespace |
| `Headers.StripIdempotent` | src/clean_data.py:16 | stripping an already stripped name changes nothing |
| `Headers.StripIgnoresPadding` | src/clean_data.py:16 | names differing only in surrounding whitespace strip to the same name |
| `Headers.RenameKnown` | src/clean_data.py:19-26 | each of the six known source headers becomes its canonical name |
| `Headers.RenamePassThrough` | src/clean_data.py:27 | a name outside the rename table is kept unchanged |
| `Headers.RenameColumnsPositional` | src/clean_data.py:27 | renaming keeps the number and order of columns; column i is renamed only if its name is in the table |
| `Headers.RenameIdempotent` | src/clean_data.py:19-27 | a renamed name is never renamed again |
| `Headers.NormalizePadded` | src/clean_data.py:16-27 | a known header surrounded by whitespace still gets its canonical name |
| `Headers.RequiredAfterNormalize` | src/clean_data.py:16-27 | after stripping and renaming the header has `document_count` (`total_citations`) exactly when some raw name strips to "Web of Science Documents" ("Times Cited") or to the canonical name itself |
| `Headers.NormalizeColumnsIdempotent` | src/clean_data.py:16-27 | normalising an already normalised header row changes nothing |
| `Numbers.RemovePercent` | src/clean_data.py:36 | the result holds no `%` and is no longer than the input |
| `Numbers.RemovePercentIdempotent` | src/clean_data.py:36 | deleting `%` twice is the same as deleting it once |
| `Numbers.RemovePercentAppend` | src/clean_data.py:36 | `%` deletion works piecewise: the other characters keep their order |
| `Numbers.CoerceIgnoresPercent` | src/clean_data.py:35-39 | a cell coerces to the same value as the cell with every `%` deleted |
| `Numbers.CoerceIgnoresInsertedPercent` | src/clean_data.py:35-39 | inserting a `%` anywhere in a cell does not change its coerced value |
| `Numbers.CoercePercentExample` | src/clean_data.py:35-39 | "12.5%" and "12.5" both coerce to 12.5 |
| `Numbers.ParseNumberGrammar` | src/clean_data.py:38-40 | the parser accepts a text exactly when it is a decimal: an optional sign, then digits, or digits, a point and digits, with at least one digit |
| `Numbers.ParseDecimal` | src/clean_data.py:38-40 | a decimal with a point parses to its whole digits plus its fractional digits over ten to their count, negated after a minus sign |
| `Numbers.ParseWhole` | src/clean_data.py:38-40 | whole digits parse to their value, negated after a minus sign |
| `Numbers.CoerceTotal` | src/clean_data.py:35-40 | coercion never fails: a cell becomes missing exactly when its text with every `%` deleted is not a decimal, and a number exactly when it is one |
| `Numbers.CoerceDecimal` | src/clean_data.py:35-40 | a cell whose `%`-free text is a decimal coerces to that decimal's value |
| `Numbers.CoerceJunkExample` | src/clean_data.py:38-40 | text that is no number ("n/a") becomes missing |
| `Numbers.PercentDoesNotParse` | src/clean_data.py:36-39 | text still holding a `%` never parses, which is why `%` is deleted first |
| `Numbers.ParseIntText` | src/clean_data.py:38-40 | the parser reads back every whole number written in decimal, with or without a minus sign |
| `Numbers.CoerceCellIdempotent` | src/clean_data.py:33-40 | a coerced cell is a number or missing, and coercing it again changes nothing |
| `Cleaner.Frame.CoerceColumn` | src/clean_data.py:32-40 | when the column exists, each of its cells is replaced by its own coercion; every other cell and the header are unchanged |
| `Cleaner.Frame.CoerceNumericColumns` | src/clean_data.py:30-40 | after the loop the frame equals `CoerceNumeric` of the old frame: only the numeric columns present are coerced, all other columns are left as they were |
| `Cleaner.KeepComplete` | src/clean_data.py:43 | the kept rows are drawn from the input, each has both required fields, and they are no more than the input |
| `Cleaner.DropIncomplete` | src/clean_data.py:43 | filtering keeps the header, and a rectangular table stays rectangular |
| `Cleaner.KeepCompleteSpec` | src/clean_data.py:43 | every kept row has both required fields, every complete row is kept, and the kept rows are an order-preserving subsequence of the input; as multisets, each complete row is kept exactly as often as it occurs and each incomplete row never |
| `Cleaner.KeepCompleteAll` | src/clean_data.py:43 | when every row is complete nothing is dropped |
| `Cleaner.KeepCompleteNone` | src/clean_data.py:43 | when no row is complete the result is empty |
| `Cleaner.DropIncompleteFails` | src/clean_data.py:43 | filtering fails exactly when `document_count` or `total_citations` is absent, and names precisely the absent ones |
| `Cleaner.Clean` | src/clean_data.py:11-43 | the cleaner's `main` (strip, rename, in-place coercion, filter) equals `CleanSpec` of the raw table |
| `Cleaner.CleanColumns` | src/clean_data.py:16-43 | the cleaned header is the raw header stripped and renamed, column for column; cleaning fails exactly when a required column is absent after renaming |
| `Cleaner.CleanRows` | src/clean_data.py:30-43 | the cleaned rows are an order-preserving subsequence of the coerced rows, each has both required fields, and each complete coerced row is kept exactly as often as it occurs |
| `Cleaner.CleanRequiredAreNumbers` | src/clean_data.py:30-43 | in the cleaned table every cell under a required column is a number |
| `Cleaner.CleanedCoerced` | src/clean_data.py:30-40 | coercing a cleaned table again changes no cell |
| `Cleaner.CleanIdempotent` | src/clean_data.py:16-43 | cleaning a cleaned table gives the same table back |
| `Tables.MissingRequiredSpec` | src/run_regression.py:84-85 | a required column is reported missing exactly when the header lacks it; nothing is missing exactly when both are present |
| `Fitter.CheckColumns` | src/run_regression.py:84-87 | the check passes exactly when both required columns are present; otherwise it fails naming precisely the missing ones, never an empty set |
| `Selection.Ranking` | src/run_regression.py:44 | the ranking of the first n rows lists exactly the rows 0..n-1 |
| `Selection.RankingRanked` | src/run_regression.py:44 | the ranking lists rows by descending citations, a tie going to the earlier row |
| `Selection.NLargestIsTopK` | src/run_regression.py:44 | `nlargest(k)` returns `min(k, n)` distinct rows in rank order, and no row left out ranks before a row selected |
| `Selection.TopKUnique` | src/run_regression.py:44 | that specification admits exactly one selection, so the selection is deterministic |
| `Selection.Top3` | src/run_regression.py:40-44 | the highlight has `min(3, n)` entries, each a row of the table |
| `Selection.Top3Properties` | src/run_regression.py:40-44 | empty table gives an empty highlight; otherwise `min(3, n)` distinct rows, in non-increasing citation order, ties to the earlier row, and no unselected row has more citations than a selected one |
| `Selection.Top3Example` | src/run_regression.py:44 | citations 10, 50, 50, 5, 100 highlight the rows with 100, then the two 50s in their original order |
| `Fitter.HighlightSpec` | src/run_regression.py:40-64 | empty table: nothing highlighted or labelled; otherwise the highlight is the top-`min(3, n)` selection and, when a name column exists, each label is its row's name cell, else there are no labels |
| `Ticks.Trunc` | src/run_regression.py:27-28 | `int()` truncates toward zero |
| `Ticks.TruncMonotone` | src/run_regression.py:27-28 | truncation preserves order |
| `Ticks.Smallest` | src/run_regression.py:27 | the minimum is an element of the column and no element is below it |
| `Ticks.Largest` | src/run_regression.py:28 | the maximum is an element of the column and no element is above it |
| `Ticks.XTicksSpec` | src/run_regression.py:27-29 | an empty column has no ticks; otherwise the ticks are the consecutive integers from `int(min)` to `int(max)`, `int(max) - int(min) + 1` of them, and every document count truncates to one of them |
| `Ticks.XTicksExample` | src/run_regression.py:27-29 | counts 1.0, 4.0, 2.5 give ticks 1, 2, 3, 4 |
| `Report.ReadReport` | src/run_regression.py:171-179 | a text accepted as a report has seven lines, and its equation line carries the same intercept and slope text as lines two and three |
| `Report.ReportRoundTrip` | src/run_regression.py:170-179 | the written report has seven lines in the fixed order and reads back as the three formatted numbers it was written from |
| `Fitter.PrepareSpec` | src/run_regression.py:81-102 | the fitter fails on missing columns first, naming exactly those; with both columns it fails only when there are no rows; on success it hands the top-3 highlight and the consecutive ticks from `int(min)` to `int(max)` of the document counts, covering every count, to the plots |
| `Fitter.CleanedTableFits` | src/run_regression.py:81-102 | every table the cleaner produces has numeric required columns, and the fitter accepts it exactly when it has a row |

## Left out

- File I/O is not modelled: reading and writing CSV, creating directories, writing the report file and its UTF-8 encoding, and the console messages. `Fitter.CleanedTableFits` assumes that writing and re-reading the cleaned CSV gives back the same table.
- Plot rendering is not modelled: scatter plots, marker styles, legend, grid, saving images, and the float offsets of name labels. The labels are the name cells themselves; their `str()` rendering is left out.
- The least-squares fit, `predict`, `r2_score` and the 100-point prediction grid are not modelled. They are library calls over floats, and the source has no regression arithmetic of its own.
- Numbers are unbounded reals, so floating-point rounding is not modelled. A cell that is already a number is taken to render and re-parse to the same value.
- `Numbers.ParseNumber`: does not model the full library parser. Surrounding whitespace, exponents, thousands separators and `inf` spellings are rejected here. `nan` spellings also become missing, as in the source.
- Duplicate column names are not modelled faithfully. After stripping or renaming, two columns may share a name, and pandas would then fail or act on both. The model coerces and filters every column that carries a numeric or required name, and reads a required column at its first position.
- `Fitter.Prepare`: requires cells under the required columns to be numbers, as the cleaner's output is. How pandas would treat text or missing values there is not modelled.
- `Fitter.PrepareSpec`: the scatter plot and the regression plot each recompute the highlight and ticks from the same table. They are modelled once.
