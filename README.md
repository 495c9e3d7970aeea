# Dashboard IW58 – AM x AS: the record pipeline

`app.py` is a Streamlit page. It loads a table of audit notes of two
types: AM (análise de medição, measurement analysis) and AS (auditoria de
serviço, service audit). From that table it derives every number the page
shows. This project models that derivation and proves what it computes.

The model covers these steps:

- **Loading.** The headers are normalised (upper-cased and trimmed). Each
  role (state, result, type, reason, regional unit, date) is mapped to the
  first header that holds one of its keywords (`achar_coluna`). The page
  stops when a required role is missing.
- **Dates.** Rows whose date does not parse are dropped. The year, the
  month and the month labels are derived from the rest.
- **Row helpers.** `norm_str` stringifies, upper-cases and trims.
  `safe_contains` tests for a substring of the normalised value. `fmt_int`
  groups digits in threes with ".".
- **Derived fields.** TIPO_NORM is the note type. CLASSE is PROCEDENTE,
  IMPROCEDENTE or OUTROS; it is built by filling the column and then
  overwriting it twice in place.
- **Selection.** The state buttons and the state filter, the AM/AS split,
  the reference year and its three KPI counters.
- **Chart tables.** The table behind each chart of the reference year:
  - annual counts per (type, class), with the type axis order;
  - monthly counts with a rounded percentage and a bar label, with the
    month axis order;
  - the month x class summary pivot with its TOTAL column;
  - counts of improcedent notes by regional unit and by reason, sorted by
    count.

Modules, in dependency order:

- `Wrappers`: `Option` and `Result`.
- `Text`: cells, `norm_str`, substring search.
- `Order`: string order, `sorted(set(...))`.
- `Format`: `str(n)` and `fmt_int`.
- `Columns`: header normalisation, `achar_coluna`, the role check.
- `Classify`: TIPO_NORM and CLASSE.
- `Frames`: generic table operations, written once and used by every
  chart. They are row filtering by a mask, `groupby().size()` and a
  stable `sort_values`.
- `Dates`: the date step.
- `Selection`: state filter, reference year, KPIs.
- `Aggregates`: the chart tables.
- `Dashboard`: the whole load. `Run` follows the script's order of steps;
  `Build` is its specification.

Imperative steps in the source are methods with loops over arrays or
sequences:

- `FindColumn`: the nested search with early return.
- `AssignWhere` and `ClassColumn`: the `.loc` overwrites of CLASSE.
- `PrepareDates`: the date step.
- `Run`: the in-place header rewrite.

`FindColumn`, `PrepareDates` and `Run` are proved equal to a pure
function, and the properties are proved about that function. `AssignWhere`
states its whole new array in terms of the old one. `ClassColumn` is
proved to give every row the class that `ClassOf` gives it.

## Model

| member | source | states |
|---|---|---|
| Columns.NormalizeHeadersIdempotent | app.py:220 | normalising already normalised headers changes nothing |
| Columns.FirstMatchFrom | app.py:198-202 | the result is a header at or after the start that holds a keyword, no earlier header holds one, and it is `None` exactly when no header from the start on holds any |
| Columns.FindColumn | app.py:196-202 | the nested loop over headers, then keywords, with early return, yields the first header in header order that holds any keyword, or `None` when none does |
| Columns.HeaderOrderWins | app.py:198-201 | header order beats keyword order: an earlier header holding a later keyword is found before a later header holding an earlier keyword |
| Columns.ResolveSpec | app.py:228-241 | loading fails exactly when one of state, result, type and date has no matching header; otherwise each of them points at the first header holding one of its keywords, and reason or regional is absent exactly when no header matches it and otherwise points at its first matching header |
| Text.NormIdempotent | app.py:204-205 | `norm_str` applied twice equals `norm_str` applied once |
| Text.StripShape | app.py:205 | the stripped text starts and ends with a non-space, and only whitespace was cut from either end |
| Text.UpperIdempotent | app.py:205 | upper-casing twice equals upper-casing once |
| Text.IndexOf | app.py:207-208 | the search returns the leftmost occurrence of the pattern, and `None` exactly when it occurs nowhere |
| Text.ContainsTransitive | app.py:207-208 | a text holding `p` holds every substring of `p` |
| Format.DecimalSpec | app.py:211 | `str(n)` is a non-empty digit string without a leading zero whose value is `n` |
| Format.FmtIntRoundTrip | app.py:210-211 | reading `fmt_int(n)` back with the dots dropped gives `n` |
| Format.FmtIntShape | app.py:210-211 | the output is an optional "-" (present exactly for negative `n`), then digits with a "." exactly every fourth place from the right, never leading |
| Format.GroupThousandsDigits | app.py:211 | grouping only inserts separators: dropping the dots gives back the digits |
| Order.SortedDistinct | app.py:284 | `sorted(unique(...))` is strictly increasing and has exactly the values of its input |
| Order.SortedIsUnique | app.py:284 | two strictly increasing lists with the same members are equal, so the state list is determined by the set of states |
| Classify.ExtractTypeFromSpec | app.py:347 | extracting the first "AM" or "AS" finds nothing exactly when neither type occurs, and otherwise returns the type at the leftmost position where either occurs |
| Classify.TypeNormSpec | app.py:347 | TIPO_NORM is the type at the leftmost "AM"/"AS" of the normalised type, or the normalised type unchanged when neither occurs |
| Classify.TypeNormLeftmost | app.py:347 | "xasam" gives "AS": position beats the order of the alternatives |
| Classify.ClassOfSpec | app.py:351-353 | IMPROCEDENTE exactly when the normalised result holds "IMPROCED"; PROCEDENTE exactly when it holds "PROCED" but not "IMPROCED"; OUTROS exactly when it does not hold "PROCED" |
| Classify.ImprocedHoldsProced | app.py:352-353 | every result holding "IMPROCED" also holds "PROCED", so the last assignment must win |
| Classify.ImprocedenteIsImprocedente | app.py:353 | "IMPROCEDENTE" is classed IMPROCEDENTE although it holds "PROCED" |
| Classify.AssignWhere | app.py:352-353 | `.loc[mask] = value` overwrites exactly the rows whose normalised result holds the pattern and leaves the others unchanged |
| Classify.ClassColumn | app.py:351-353 | filling with OUTROS, then the PROCED pass, then the IMPROCED pass, yields for every row the class that `ClassOfSpec` characterises |
| Frames.WhereMembers | app.py:300 | a boolean-mask filter keeps exactly the rows that pass the mask |
| Frames.WhereAppend | app.py:300 | filtering a concatenation is the concatenation of the filtered parts, so the table order is kept |
| Frames.WhereEmpty | app.py:344 | a filtered table is empty exactly when no row passes |
| Frames.WhereIdempotent | app.py:300 | applying the same mask twice equals applying it once |
| Frames.WhereCommute | app.py:497-498 | two masks applied in either order give the same rows |
| Frames.WhereCount | app.py:317 | the length of a filtered table is the number of positions whose row passes the mask |
| Frames.WhereBoth | app.py:318-319 | filtering by one mask and then another equals filtering once by their conjunction |
| Frames.GroupSizesSpec | app.py:355-358 | `groupby().size()` has one group per distinct key, each positive and equal to the number of rows with that key; a key has a group exactly when it occurs; the sizes add up to the number of rows |
| Frames.SortBySpec | app.py:506 | `sort_values` returns a permutation of its input in non-decreasing order of the sort column |
| Frames.SortByGroups | app.py:430 | sorting grouped counts keeps the keys distinct, keeps the same keys and keeps their total |
| Dates.PrepareDates | app.py:246-253 | the loop over the rows computes exactly the prepared table `Prepared` |
| Dates.PreparedSpec | app.py:246-253 | exactly the rows whose date parsed survive, in number equal to the parsed dates, each carrying the columns derived from its own date, and no other row appears |
| Dates.PreparedSingle | app.py:247 | a single row survives, with the columns derived from its date, exactly when its date parsed |
| Dates.PreparedAppend | app.py:247 | preparing a concatenation is the concatenation of the prepared parts, so the surviving rows keep their order and multiplicity |
| Dates.PreparedKeepsAll | app.py:247 | when every date parses, no row is dropped and the rows keep their order |
| Dates.PeriodReadsBack | app.py:252 | MES_ANO is four year digits, "-", two month digits, and reads back as the date's year and month |
| Dates.PeriodInjective | app.py:252 | two dates with the same MES_ANO have the same year and month |
| Selection.StateOptionsSpec | app.py:284-285 | the options are "TOTAL" followed by every normalised state that occurs, once each, in increasing order |
| Selection.OptionSelectsRows | app.py:284-300 | every state button selects at least one row |
| Selection.FilterStateSpec | app.py:300 | "TOTAL" keeps the table; any other selection keeps exactly the rows whose normalised state equals it, never more rows than the table |
| Selection.FilterStateIdempotent | app.py:300 | re-applying the same selection changes nothing |
| Selection.SplitByTypeSpec | app.py:305-306 | `df_am` and `df_as` hold exactly the rows whose type holds "AM", respectively "AS"; a row is in both exactly when its type holds both |
| Selection.InYearSpec | app.py:315 | the year's slice holds exactly the rows of that year, and is empty exactly when no row has that year |
| Selection.MaxYear | app.py:314 | the maximum is the year of some row and no row is later |
| Selection.ReferenceYearSpec | app.py:314-315 | the reference year exists exactly when the table has a row; when the filter selects rows, no selected row is later and the year's slice is not empty; when it selects none, the year is that of some row of the whole table and no row is later |
| Selection.YearKpisSpec | app.py:317-319 | the total is the number of filtered rows of the year, and the AM and AS counters the number of those whose type holds "AM", respectively "AS"; so each counter is at most the total, which is 0 exactly when no filtered row has that year |
| Selection.YearKindCount | app.py:318-319 | the year's rows whose type holds a code number the positions of the filtered table whose row has the year and that code |
| Aggregates.TypeOrderSpec | app.py:362-364 | `ordem_tipo` is strictly increasing; it holds "AM" and "AS" when present, and any other type only when neither is present |
| Aggregates.KindsOfSpec | app.py:362 | the TIPO_NORM column of the grouped table holds exactly the types of the grouped rows |
| Aggregates.AnnualSpec | app.py:342-364 | the annual table is `None` exactly when no row has the year; otherwise one positive count per (type, class) that occurs, each equal to the number of such rows, together adding up to the year's rows; the type axis is strictly increasing and holds "AM" and "AS" when a row of the year has them, and any other type of the year's rows only when neither occurs |
| Aggregates.RoundHalfEvenSpec | app.py:419 | the rounding picks the integer nearest to the quotient, and on a tie the even one |
| Aggregates.PctBounds | app.py:419 | a share of its total rounds to at most 100 |
| Aggregates.SlotTotalCounts | app.py:418 | the `transform("sum")` total of a (month, label, type) equals the number of the year's rows in it |
| Aggregates.SlotPctError | app.py:411-419 | over the rows of one (month, label, type), the sum of PCT differs from 100 times the rows' share of the total by at most half a point per class present |
| Aggregates.SlotPctSum | app.py:411-419 | the PCTs of one (month, label, type) that has rows add up to between 99 and 101 |
| Aggregates.MonthlyRowSpec | app.py:411-424 | each monthly row counts its group; PCT is the count over its (month, label, type) total times 100 rounded to the nearest integer, so between 0 and 100; LABEL is PCT + "%" for PROCEDENTE and "" otherwise |
| Aggregates.MonthlySpec | app.py:398-419 | the monthly table is `None` exactly when no row has the year; otherwise one row per distinct (month, label, type, class), the counts adding up to the year's rows |
| Aggregates.MonthAxisSpec | app.py:427-431 | `drop_duplicates().sort_values("MES_NUM")` lists each (month, label) pair once, all of them, in non-decreasing month order |
| Aggregates.MonthOrderSpec | app.py:427-432 | `ordem_mes` lists the (month, label) pairs of the year's rows once each, in non-decreasing month order |
| Aggregates.SummaryCellsCount | app.py:480 | with zero fill, the class cells of a month add up to the month's notes, a class absent from the year counting 0 |
| Aggregates.AbsentClassIsZero | app.py:480 | a class absent from the year contributes 0 to every month |
| Aggregates.PivotColumnsSpec | app.py:480 | the pivot's columns are exactly the classes that occur |
| Aggregates.PivotColumnsSorted | app.py:480 | the pivot's columns are in strictly increasing order of their class names |
| Aggregates.SummaryAxisOfKeys | app.py:476-482 | the summary's month axis lists each (month, label) pair of the year's rows once, and no other, in non-decreasing month order |
| Aggregates.CellsCount | app.py:476-480 | each cell of a month's line is the number of the month's notes of that column's class, 0 when there are none |
| Aggregates.PivotSpec | app.py:475-483 | the corrected pivot has one line per (month, label) pair that occurs, once each, in non-decreasing month order; a column per class that occurs; each cell is the number of notes of that month and class; TOTAL equals the month's note count |
| Aggregates.SummaryTableSpec | app.py:467-483 | the corrected summary is `None` exactly when no row has the year; otherwise it is the pivot `PivotSpec` describes, over the year's rows |
| Aggregates.SummaryAsWrittenSpec | app.py:467-483 | the summary the page shows is `None` exactly when no row has the year; otherwise it has the lines, columns and cells `PivotSpec` describes, and each TOTAL is the month's note count plus its MES_NUM |
| Aggregates.PivotAsWrittenSpec | app.py:481 | as written, TOTAL equals the month's note count plus its MES_NUM, with the same cells as the corrected pivot |
| Aggregates.SummaryTotalOverstates | app.py:481 | as written, every line's TOTAL exceeds the month's note count |
| Aggregates.SummaryJanuaryExample | app.py:481 | one PROCEDENTE note in January gives TOTAL 2 as written, 1 as corrected |
| Aggregates.SliceKeysMembers | app.py:503 | `groupby` on the slice column keeps exactly the values present, dropping missing ones |
| Aggregates.ImprocedentMembers | app.py:497-498 | a row is in the slice exactly when its type holds the target and its result holds "IMPROCED" |
| Aggregates.SortedCountsSpec | app.py:502-507 | counting and sorting ascending gives one positive group per value, each counting its value, in non-decreasing count order, the counts adding up to the values |
| Aggregates.ImprocedentBySpec | app.py:493-536 | a slice is `None` exactly when its column is absent or no row matches; otherwise it has the groups `SortedCountsSpec` describes over the matching rows' non-missing values |
| Dashboard.Run | app.py:220-253 | normalising the headers in place, resolving the roles, stopping without a required one, then the date step, computes exactly `Build` |
| Dashboard.BuildFails | app.py:235-247 | the load fails for missing columns exactly when a required role has no header, and for want of dates exactly when the roles resolve but no date parsed |
| Dashboard.ViewConsistent | app.py:314-483 | when the selection has rows, the reference year is one of theirs, the KPI total is positive, the annual, monthly and summary tables (the summary as written) all exist, and the annual counts add up to the KPI total |

## Left out

- The Streamlit page is not modelled. This covers CSS, the cards, the grid of state buttons, and `st.session_state` (app.py:10-191, 259-298). The selected state is a parameter of `Build`.
- The login against `st.secrets` (app.py:165-191) is a foreign credential check.
- Loading is not modelled: `pd.read_csv` from a network URL, `@st.cache_data` and type inference (app.py:216-223). The model starts from parsed headers and rows of cells. A missing cell is `Missing`, and stringifies to "nan" as `astype(str)` does.
- Duplicate header names are not modelled. The model addresses columns by position.
- Columns.Project: a role matched to the same header as the date reads the raw cell. In app.py:246 the date column is overwritten with parsed timestamps before the type (app.py:347), the state (app.py:284, 300), the result, the reason and the regional unit are read from it; the model does not capture that rewrite, so for such a header TIPO_NORM and the other roles see the text of the date rather than the stringified timestamp.
- `pd.to_datetime(..., dayfirst=True)` and the locale's month names (`%B`, `%b`) are inputs. `Build` receives each row's parsed date as an `Option<Date>`, and receives a `Locale`.
- Plotly figures and their layout are rendering. Each function stops at the table handed to the plot.
- The CSV export (app.py:586-591) is serialisation and download I/O.
- Text.Upper: maps ASCII and Latin-1 letters only. Python's full Unicode case mapping (for example "ß" to "SS") is not modelled.
- Text.Contains: a plain substring test. `str.contains` takes a regular expression, but every pattern the page uses ("AM", "AS", "PROCED", "IMPROCED") is a literal without metacharacters.
- Aggregates.Pct: exact rational arithmetic with round-half-to-even. The float quotient of app.py:419 may round differently when the exact value is within float error of a half.
- Frames.GroupSizes: lists groups in order of first appearance, while pandas sorts the group keys. The chart tables are compared by their contents. The axis order comes from `TypeOrder` and `MonthAxis`, which the source computes separately.
- Aggregates.ImprocedentBy: uses a stable sort by count. pandas' default sort is not stable, so the order of groups with equal counts is not modelled.
- Parsed years lie in 1677..2262, the range of a pandas timestamp. A date outside it does not parse.
- Selection.SplitByType: `df_am` and `df_as` (app.py:305-306) are computed but never used by the page. They are modelled and proved, but no view depends on them.
- The KPI counters are shown through `fmt_int`. `fmt_int` is modelled on its own, not as part of the page's HTML.
- Rows whose date does not parse are dropped (app.py:247). A missing required column gives one fixed message (app.py:237-240), which does not list the missing roles.
- When the whole table has no dated row, the source fails converting a missing maximum to `int` (app.py:314). The model reports this as `NoDatedRecords`.
- The page's summary is `SummaryAsWritten`, with the TOTAL as app.py:481 computes it. `SummaryTable` and `Pivot` are the corrected summary of the Findings; no view uses them.

## Findings

| source | as written | input that shows it | evidently intended | confidence | as-written member | corrected member |
|---|---|---|---|---|---|---|
| app.py:481 | `tb_piv.sum(axis=1, numeric_only=True)` runs while MES_NUM is still a numeric column (it is dropped only at app.py:482), so TOTAL = MES_NUM + the class cells | one PROCEDENTE note dated in January: the line shows PROCEDENTE 1, TOTAL 2 | TOTAL = number of notes in the month, the sum of the class cells | not executed | Aggregates.PivotAsWrittenSpec | Aggregates.PivotSpec |
