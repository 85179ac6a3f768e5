# Gas usage merge and dashboard rules, in Dafny

This project models the two pieces of logic in a small gas-usage repository:

- **The merge script** (`clean_gas.py`). It reads the utility's daily export ("Bord Gais Daily Data.csv") and keeps only rows whose Date text starts with `dd/dd/dddd`. It parses each such date day first and renders it as the zero-padded `DD/MM/YYYY` key. Rows whose key gas.csv already holds are dropped. Each remaining row becomes a normalised record of Year, three-letter Month, Date, Hdd and Gas (kWh). These records are appended after the existing rows of gas.csv. Nothing is written when no row is accepted.
- **The dashboard's selection rules** (`gas_app.py`). These are the "All"-aware Year and Month filters, the option lists of the two selectors, the label of each regression group (Year, or Month-Year), and the R² report. The report gives one line per group, in ascending group order: a fitted R² where the group has enough data, and "Not enough data" otherwise.

Files:

- `wrappers.dfy`: the `Option` datatype.
- `string_order.dfy`: Python's ordering of strings, plus `sorted` of distinct values and pandas' `unique()`, with the properties the dashboard relies on.
- `dates.dfy`: the date pattern test, the day-first parse, the `%d/%m/%Y` key, and the English month abbreviations.
- `clean_gas.dfy`: the merge script. `CleanRow` is one loop iteration and `Accepted` is the specification of the whole loop. `CleanRows` is the loop, proved against `Accepted`. `RunMerge` is the script acting on a `GasCsv` object that stands for gas.csv.
- `gas_app.dfy`: the filters, the option lists, the group labels, the `ComputeR2` loop that fills the R² dictionary, the `ReportLines` loop that emits the report in key order, and `Dashboard`, which combines them.

Library calls the code cannot show are parameters:

- `Conversions.toFloat` is Python's `float(text)`. It returns None where `float` raises.
- `Conversions.lenientDate` is what `pd.to_datetime(text, dayfirst=True)` does with texts that are not exactly a day-first calendar date.
- `rsquared` is the R² of the OLS fit of one group.

A day-first text of exactly ten characters that names a calendar date parses to that date. The parse raises (None) when the date lies outside the range of a pandas nanosecond Timestamp, 22/09/1677 to 11/04/2262.

## Behaviours kept as the code has them

- A failed HDD or gas conversion drops the whole row. The conversion raises inside the `try`, and the `except` skips the row (`clean_gas.py:34-38`). No row is kept with that value absent. See `CleanGas.AcceptIff`.
- Rows of one batch that share a new date are all appended. The set of existing dates is built once, before the loop, and is never updated in it (`clean_gas.py:13`, `29`). See `CleanGas.BatchDuplicatesBothAppended`. So dates in gas.csv stay unique only when each batch brings each new date once (`CleanGas.MergeKeepsDatesUnique`).
- The date test checks only the start of the text. `re.match` anchors at the start and not at the end, so any trailing text still passes (`clean_gas.py:25`, `Dates.PatternIgnoresTrailingText`).

## Model

| member | source | states |
|---|---|---|
| `Dates.StartsWithDatePattern` | clean_gas.py:25 | the date test: two digits, "/", two digits, "/", four digits at the start of the text; `PatternIgnoresTrailingText` states that it is a prefix test |
| `Dates.ParseDayFirst` | clean_gas.py:27 | the day-first parse: an exact ten-character calendar date gives that date, or raises outside the Timestamp range; `ParseCanonical` and `CanonicalOfExactText` state what it does with keys |
| `Dates.PatternIgnoresTrailingText` | clean_gas.py:25 | the date test is a prefix test: a text that passes still passes with any text appended |
| `Dates.Canonical` | clean_gas.py:28 | the `%d/%m/%Y` key of a date is ten characters, passes the date test, and its day-first fields are that date |
| `Dates.ParseCanonical` | clean_gas.py:27-28 | parsing a key day first gives back the date it was rendered from |
| `Dates.CanonicalOfExactText` | clean_gas.py:27-28 | a ten-character text that already reads day first as a date is its own key, so an already canonical input dedups against itself |
| `Dates.MonthAbbrRoundTrip` | clean_gas.py:32 | the month abbreviation and `%b` month-number lookup are inverse on months 1 to 12 |
| `CleanGas.StripCommas` | clean_gas.py:35 | removing "," leaves no comma, keeps every other character's count, and changes nothing in a text without commas |
| `CleanGas.StripCommasOfChar` | clean_gas.py:35 | on one character, a comma is removed and any other character is kept |
| `CleanGas.StripCommasConcat` | clean_gas.py:35 | removing commas commutes with concatenation, so the remaining characters keep their order; with the one-character case this fixes the result of every text |
| `CleanGas.StripCommasExample` | clean_gas.py:35 | "1,234.5" becomes "1234.5" |
| `CleanGas.ConvertHdd` | clean_gas.py:34 | a missing HDD cell converts to a missing value and never raises; a present cell raises exactly where `float` rejects it, and otherwise converts to `float` of the text |
| `CleanGas.ConvertGas` | clean_gas.py:35 | a missing, "" or "nan" gas cell converts to a missing value and never raises; any other cell raises exactly where `float` rejects its comma-free text, and otherwise converts to `float` of that text |
| `CleanGas.ThousandsSeparatorsIgnored` | clean_gas.py:35 | a gas text converts like the same text without its commas, unless stripping leaves a blank marker |
| `CleanGas.CleanRow` | clean_gas.py:22-38 | one loop iteration: an appended row's Date is the key of the row's parsed date and is not an existing date; `AcceptIff` and `AcceptedRowIsNormalised` give the full rule |
| `CleanGas.AcceptedRowIsNormalised` | clean_gas.py:25-36 | an accepted row's Date is the key of its parsed date and not an existing date; its Year and Month come from that date; Hdd and Gas are the converted cells |
| `CleanGas.AcceptIff` | clean_gas.py:25-38 | a row is accepted exactly when its date text matches, parses, has a new key, and both numeric cells convert; a conversion that raises drops the row |
| `CleanGas.NonDateTextSkipped` | clean_gas.py:22-25 | a missing date, or one failing the pattern, is skipped |
| `CleanGas.CleanRowAgainstMore` | clean_gas.py:29 | a row accepted against more existing dates is accepted, as the same row, against fewer |
| `CleanGas.RecordedRowSkipped` | clean_gas.py:29 | once an accepted row's date is among the existing dates, that row is skipped |
| `CleanGas.AcceptedAvoidExistingDates` | clean_gas.py:29-30 | no accepted row has a Date in `existing_dates`, and every accepted Date is text |
| `CleanGas.AcceptedComeFromSource` | clean_gas.py:21-36 | every accepted row is the normalisation of some source row, and there are no more accepted rows than source rows |
| `CleanGas.AcceptedSplit` | clean_gas.py:20-30 | accepted rows keep source order: the rows accepted from a split batch are those of the first part, then those of the second |
| `CleanGas.BatchDuplicatesBothAppended` | clean_gas.py:29-30 | any two source rows that are each accepted on their own are both appended, in order, even when they share a new date, because `existing_dates` is not updated in the loop |
| `CleanGas.Accepted` | clean_gas.py:20-38 | the rows the loop appends, in source order; `AcceptedAvoidExistingDates`, `AcceptedComeFromSource` and `AcceptedSplit` state its properties |
| `CleanGas.CleanRows` | clean_gas.py:20-38 | the loop builds `cleaned_rows` as exactly the accepted rows of the export, in source order |
| `CleanGas.DateSet` | clean_gas.py:13 | the existing dates are exactly the Date values of gas.csv's rows; the loop checks against this set, built once |
| `CleanGas.Merged` | clean_gas.py:43 | the existing rows followed by the accepted rows; `AcceptedDatesRecorded`, `MergeIdempotent` and `MergeKeepsDatesUnique` state its properties |
| `CleanGas.AcceptedDatesRecorded` | clean_gas.py:43 | after the merge every existing date is still present and every appended date is among the destination's Date values |
| `CleanGas.NothingLeftToAccept` | clean_gas.py:29 | against a date set holding every date a batch accepted, the same batch accepts nothing |
| `CleanGas.SecondRunAppendsNothing` | clean_gas.py:11-30 | a second run with the same export, reading back a gas.csv with the same Date values, appends no row |
| `CleanGas.MergeIdempotent` | clean_gas.py:41-44 | merging the same export into a merge result gives that result unchanged |
| `CleanGas.MergeKeepsDatesUnique` | clean_gas.py:43 | the merged dates are unique when the existing dates are and the batch accepts each new date once |
| `CleanGas.RunMerge` | clean_gas.py:10-47 | with no accepted row the file is left as it was (missing or not) and "no new rows" is reported; otherwise it holds the existing rows unchanged, then the accepted rows, and the count appended is reported; a missing file reads as an empty frame |
| `StringOrder.SortedDistinctSpec` | gas_app.py:27 | `sorted` of the distinct values is ascending and holds exactly the values |
| `StringOrder.AscendingUnique` | gas_app.py:27 | two ascending lists of the same values are equal, so any correct sort gives the same option list |
| `StringOrder.DistinctSpec` | gas_app.py:80 | `unique()` lists each value once and holds exactly the values |
| `GasApp.WhereSpec` | gas_app.py:40 | a boolean mask keeps exactly the rows it accepts, as an order-preserving subsequence, and keeps every copy of an accepted row |
| `GasApp.FilterYears` | gas_app.py:39-40 | the Year filter; `FilterYearsSpec` states its contract |
| `GasApp.FilterMonths` | gas_app.py:41-42 | the Month filter; `FilterMonthsSpec` states its contract |
| `GasApp.Filtered` | gas_app.py:38-42 | both filters in turn; `FilteredSpec` states its contract |
| `GasApp.FilterYearsSpec` | gas_app.py:39-40 | with "All" selected the Year filter removes nothing; otherwise it keeps exactly the rows whose Year is selected |
| `GasApp.FilterMonthsSpec` | gas_app.py:41-42 | the same for the Month filter |
| `GasApp.FilteredSpec` | gas_app.py:38-42 | both filters keep exactly the rows that pass both, as an order-preserving subsequence of the loaded rows |
| `GasApp.YearOptions` | gas_app.py:27 | the Year options; `YearOptionsSpec` states its contract |
| `GasApp.YearOptionsSpec` | gas_app.py:27 | the Year options are "All", then each year once in ascending string order; any other ascending list of those years is the same list |
| `GasApp.MonthKeysSpec` | gas_app.py:33 | a month number is a sort key of the data exactly when its abbreviation is a Month value, whatever the other Month values are |
| `GasApp.MonthOptions` | gas_app.py:33 | the Month options; `MonthOptionsSpec` states its contract |
| `GasApp.MonthOptionsSpec` | gas_app.py:33 | the Month options are "All", then each Month value once in calendar order |
| `GasApp.GroupColumn` | gas_app.py:55-59 | the colour column is "Year" exactly when grouping by Year, and never empty |
| `GasApp.GroupLabel` | gas_app.py:55-59 | a row's regression group: its Year, or Month "-" Year; `MonthYearLabelsDistinguish` states that the Month-Year label identifies Month and Year |
| `GasApp.MonthYearLabelsDistinguish` | gas_app.py:55-59 | with three-letter months, two rows share a Month-Year label exactly when they share Month and Year |
| `GasApp.EligibleIffTwoOfEach` | gas_app.py:82 | a group is eligible exactly when it has more than one Hdd and more than one Gas value; the length test adds nothing |
| `GasApp.GroupRows` | gas_app.py:81 | a group's rows are exactly the filtered rows with that label, in their order, with every copy of such a row kept |
| `GasApp.Eligible` | gas_app.py:82 | the rule that a group gets an R²; `EligibleIffTwoOfEach` states its contract |
| `GasApp.R2Entry` | gas_app.py:82-90 | a group's entry: its R² when eligible, None otherwise; `ComputeR2` states that every entry follows it |
| `GasApp.ComputeR2` | gas_app.py:79-90 | the R² dictionary has one entry per distinct group value: the group's R² when eligible, None otherwise |
| `GasApp.LineFor` | gas_app.py:94-97 | a report line names its group and shows the R² exactly when the entry has one, and "Not enough data" otherwise |
| `GasApp.ReportLines` | gas_app.py:93-97 | one report line per entry, in ascending key order, showing the R² or "Not enough data" |
| `GasApp.Dashboard` | gas_app.py:38-99 | an empty selection shows the warning and no report; otherwise the report covers each group of the selected rows exactly once, in ascending order, each line as the eligibility rule decides |

## Left out

- Reading and writing CSV files, the file paths, `print` and `st.cache_data` (`clean_gas.py:7-8, 12, 19, 44`; `gas_app.py:9-11`) are file I/O. The frames are in-memory sequences. gas.csv is the `GasCsv` object, and the printed line is the returned `Summary`.
- `CleanGas.SecondRunAppendsNothing`: the CSV round trip of the Year, Hdd and Gas columns is not modelled. The lemma assumes only that gas.csv read back keeps the Date texts it was written with.
- `pd.to_datetime` beyond a plain day-first `DD/MM/YYYY` text is library behaviour. This covers trailing text and rereading month first when the middle field exceeds 12. It is the `lenientDate` parameter.
- `float(...)` and `pd.to_numeric(..., errors="coerce")` are floating-point conversions. `float` is the `toFloat` parameter. The dashboard's rows arrive with Hdd and Gas already coerced (`Reading.hdd`, `Reading.gas`).
- The loading step of the dashboard (`gas_app.py:12-16`) is left out. This includes parsing its Date column, which only feeds the chart's hover data.
- OLS fitting, R² values and `sm.add_constant` (`gas_app.py:83-88`) are floating-point statistics in a library. The R² of a group is the `rsquared` parameter. The case where the fit itself fails after dropping rows with a missing value is not modelled.
- Plotly charts, Streamlit layout and widgets, dividers and markdown styling are UI. Number formatting (`:.3f`) is also left out.
- `calendar.month_abbr` is taken as the English `Jan`..`Dec` table. Its locale dependence is not modelled.
- `Dates.StartsWithDatePattern`: `\d` is taken as the ASCII digits. Python's `re` also matches other Unicode decimal digits.
- `GasApp.MonthOptionsSpec`: states nothing when a Month value is not an exact English abbreviation. On such values `%b` parsing raises, yields NaT, or matches case-insensitively.
- `GasApp.MonthOptions`: omits every Month value that is not an exact English abbreviation. For such a value `gas_app.py:33` raises (for example "Foo") or lists the value at its month, since `%b` ignores case (for example "jan").
- Concurrent runs against the same gas.csv are not modelled. The script does an unguarded whole-file read-modify-write.
