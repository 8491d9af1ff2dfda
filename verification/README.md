# app-chuva in Dafny

A model of the data logic of `app_chuva.py`, a Streamlit page. The page asks
for a point and a date range and fetches daily corrected precipitation
(`PRECTOTCORR`) for that point from the NASA POWER service as CSV text. It
then shows the daily amounts, their running total (`Chuva_Acum`) and the total
for the period.

The model covers the pure pipeline between the HTTP call and the rendering
calls:

- the date-range guard (`start_date > end_date` stops the page);
- cutting the CSV body out of the response (`split('-END HEADER-')[1].strip()`);
- replacing the sentinel `-999` with a missing value in every column;
- `fillna(0).astype(float)` on the precipitation column and `cumsum()`;
- the `DATE` column built from `YEAR`, `MO` and `DY`
  (`str`, `zfill(2)`, `pd.to_datetime`, `strftime('%d/%m/%Y')`);
- the total `Chuva_Acum.iloc[-1]`.

Modules, one file each:

- `Wrappers`: `Option` and `Result`.
- `Faults`: the exceptions that stop the script.
- `Text`: Python's `str.split` and `str.strip`.
- `Numerals`: `str(int)`, `str.zfill`, and reading digit strings.
- `Calendar`: date order, the `YYYY-MM-DD` text and its parse, and the `DD/MM/YYYY` rendering.
- `Tables`: cells, the table (`Frame`), and the sentinel replacement.
- `Payload`: `load_data` without the request.
- `Rainfall`: fill, running total and last value.
- `App`: `main()` as one function, `Main`, returning `Rejected`, `Crashed(fault)` or `Shown(report)`.

Floats are modelled as `real`. The CSV reader is a parameter
`readCsv: string -> Option<Table>`, `None` where `pd.read_csv` raises. The
response text is an input; the model does not fetch it.

In a few places the code does not do what the page evidently intends. There
the model follows the code:

- A response without `-END HEADER-` makes `data_parts[1]` raise `IndexError`.
  The model gives `Crashed(MissingMarker)`, not a structured error that the
  page reports. It is never an empty table.
- When `YEAR`, `MO` or `DY` is absent, line 57 shows an error. Line 61 then
  selects a `DATE` column that was never created, which raises `KeyError`
  unless the CSV itself had a `DATE` column. The model gives
  `Crashed(MissingColumn("DATE"))`, or shows the CSV's own `DATE` cells
  (`Carried`). It does not skip the table.
- A body that `pd.read_csv` cannot read raises; an empty body always does
  (`EmptyDataError`). The model gives `Crashed(UnreadableCsv)`.
- An empty table reaches `iloc[-1]` and raises. The model gives `Crashed(EmptyTable)`.
- A row whose date cannot be read makes `pd.to_datetime` raise for the whole
  column. The model gives `Crashed(BadDate)`.

## Model

| member | source | states |
|---|---|---|
| Calendar.InRange | app_chuva.py:37 | for valid dates the guard passes a range exactly when the start's day number is not above the end's; equal dates pass, a start one day after the end is refused |
| Calendar.BeforeIsOrdinalOrder | app_chuva.py:37 | Python's year-month-day comparison of valid dates agrees with their order on the day count |
| App.Main | app_chuva.py:37-64 | the page is refused iff start is after end; an in-range request whose response lacks the marker crashes with MissingMarker; a shown report is non-empty, has one date, amount and running total per row, running total i is the sum of amounts 0..i, and the total is the sum of all amounts |
| App.MainOutcome | app_chuva.py:41-64 | for an accepted range whose response has the marker: an unreadable body crashes with UnreadableCsv; for the loaded table, no PRECTOTCORR crashes with a KeyError, a DATE failure crashes with that failure, no rows crashes at iloc[-1], and otherwise the page shows the table's DATE labels, the filled amounts, their running totals and their sum |
| App.MainPrecipitation | app_chuva.py:41-50 | with the marker present: no PRECTOTCORR column means a KeyError crash; a shown report has one amount per row of the parsed table, 0 for a sentinel or missing cell, the cell's number otherwise; an empty table is never shown |
| Text.Split | app_chuva.py:13 | the parts joined with the separator give back the text, no part contains the separator, and there are two or more parts iff the text contains it |
| Text.SplitAtFirst | app_chuva.py:13 | the split cuts at the leftmost occurrence: the first part is the text before it, the rest is the split of the text after it |
| Text.Strip | app_chuva.py:14 | the result has no whitespace at either end and sits in the input with only whitespace before and after it |
| Text.TrimsUnique | app_chuva.py:14 | at most one string is the input stripped of surrounding whitespace |
| Text.StripCharacterized | app_chuva.py:14 | any trimmed string framed by whitespace in the input is what strip returns |
| Text.StripIdempotent | app_chuva.py:14 | stripping twice is stripping once |
| Payload.ExtractBody | app_chuva.py:13-14 | fails with MissingMarker exactly when the response has no `-END HEADER-`; otherwise the body is trimmed |
| Payload.ExtractBodyIsSpan | app_chuva.py:13-14 | the body is the stripped text between the first marker and the next marker or the end of the response |
| Payload.LoadData | app_chuva.py:13-17 | no marker fails with MissingMarker; otherwise it fails with UnreadableCsv exactly when the body is empty or the reader rejects it, and a loaded table has the read table's columns and rows, each cell kept except that a -999 cell becomes missing |
| Tables.IsSentinel | app_chuva.py:16 | a cell is replaced exactly when the number it holds equals -999, whether it was read as an integer or a float |
| Tables.Scrub | app_chuva.py:16 | same columns and rows; no cell equals -999 afterwards; a -999 cell becomes missing and every other cell is unchanged |
| Tables.ScrubIdempotent | app_chuva.py:16 | replacing the sentinel again changes nothing |
| Tables.Column | app_chuva.py:49 | a column is found iff its name is a column, and holds that column's cell of every row |
| Tables.ColumnOfScrub | app_chuva.py:16 | reading a column after the replacement gives the column read before it, with sentinels made missing |
| Rainfall.Fill | app_chuva.py:49 | one amount per cell; a missing cell becomes exactly 0; a present cell keeps its number |
| Rainfall.CumSum | app_chuva.py:50 | one running total per amount; running total i is the sum of amounts 0..i |
| Rainfall.CumSumStep | app_chuva.py:50 | running total i is running total i-1 plus amount i |
| Rainfall.CumSumRecurrence | app_chuva.py:50 | the first running total is the first amount, and each later one adds its row's amount |
| Rainfall.CumSumMonotone | app_chuva.py:49-50 | with no negative amount the running totals never decrease |
| Rainfall.CumSumFlatAtZero | app_chuva.py:49-50 | a row with amount 0 repeats the previous running total |
| Rainfall.SentinelAddsNothing | app_chuva.py:49-50 | a -999 cell, once replaced (line 16) and filled, leaves the running total where it was |
| Rainfall.CumSumExample | app_chuva.py:50 | amounts 2.0, 0.0, 5.5 give running totals 2.0, 2.0, 7.5 |
| Rainfall.Last | app_chuva.py:64 | there is no last value exactly when the column is empty |
| Rainfall.TotalIsSum | app_chuva.py:64 | the total is absent for no rows, and otherwise is the sum of every amount |
| Numerals.ParseDigitsOfDigits | app_chuva.py:54 | the decimal text of a number reads back as that number |
| Numerals.IntText | app_chuva.py:54 | `str(int)`: characterised by Numerals.IntTextReads |
| Numerals.IntTextReads | app_chuva.py:54 | str(i) starts with '-' exactly for negative i, and the rest is a digit string that reads back as the magnitude of i |
| Numerals.ZFill | app_chuva.py:54 | the padded text is as long as the input or the width, whichever is larger; its value is kept by Numerals.ZFillKeepsValue |
| Numerals.ZFillKeepsValue | app_chuva.py:54 | zero-padding a digit string keeps it a digit string for the same number |
| Numerals.DigitsLength | app_chuva.py:54 | a number's decimal text is at most k digits iff the number is below 10^k |
| Calendar.IsoText | app_chuva.py:54 | the YEAR-MO-DY text of one row: characterised by Calendar.IsoRoundTrip |
| Calendar.ParseIso | app_chuva.py:54 | a parsed date is always a valid calendar date |
| Calendar.IsoRoundTrip | app_chuva.py:54 | the YEAR-MO-DY text reads back as the same date iff the year has four digits and the date is valid; any other row, including negative fields, fails to parse |
| Calendar.DisplayText | app_chuva.py:55 | `strftime('%d/%m/%Y')`: characterised by Calendar.DisplayLayout and Calendar.DisplayInjective |
| Calendar.DisplayLayout | app_chuva.py:55 | the display text is ten characters: two digits of day, '/', two digits of month, '/', four digits of year |
| Calendar.DisplayInjective | app_chuva.py:55 | distinct dates are displayed differently |
| Calendar.DisplayExample | app_chuva.py:55 | 2023-04-01 is displayed as 01/04/2023 |
| App.RowDate | app_chuva.py:54-55 | a row whose YEAR, MO or DY cell is not an integer gets no date |
| App.RowDateSpec | app_chuva.py:54-55 | a row gets a date iff its cells are integers forming a valid date with a four-digit year, and the date is then DD/MM/YYYY of it |
| App.RowDateExample | app_chuva.py:54-55 | YEAR=2023, MO=4, DY=1 gives 01/04/2023 |
| App.DeriveDates | app_chuva.py:54-55 | the column converts iff every row's cells are integers forming a valid date with a four-digit year; row i is then shown as DD/MM/YYYY of its own date |
| App.HasDateParts | app_chuva.py:53 | the test passes exactly when YEAR, MO and DY can each be selected from the table |
| App.DateColumn | app_chuva.py:53-61 | with YEAR, MO and DY: BadDate unless every row is a valid date with a four-digit year, and then row i is DD/MM/YYYY of its date; without them: the CSV's own DATE cell of each row, unchanged, or a missing-DATE KeyError |

## Left out

- The HTTP request and URL building (lines 10-12): network I/O. The response text is an input of `Main`.
- `@st.cache_data` memoisation (line 8): host-runtime caching with no logic of its own.
- `pd.read_csv` (line 15): CSV tokenising and type inference are the `readCsv` parameter, which says which bodies it rejects. Only the empty body is rejected by the model itself; other `read_csv` errors are whatever `readCsv` returns. Cells are integers, floats or missing; text cells are not modelled.
- Streamlit widgets, messages, tables and the Plotly chart (lines 26-35, 38, 44-46, 57, 60-61, 65, 68-70): UI. Line 61 is kept only as the point where a missing DATE column raises.
- The `:.2f` formatting of the total (line 65), and IEEE float rounding: amounts are `real`.
- Calendar.ParseIso: reads only the `YYYY-MM-DD` shape. Line 54 can also build other texts (`999-04-01`, `10000-04-01`, `2023--4-01`, `2023-100-01`); the model treats every text other than `YYYY-MM-DD` that line 54 can build as unreadable, and does not model which of them `pd.to_datetime` would read. The nanosecond `Timestamp` range of pandas (years 1677 to 2262) is not modelled, so years 1000-1676 and 2263-9999 parse here where pandas would raise.
- `%Y` in `strftime` is rendered as the plain decimal year. That matches `strftime` for the four-digit years that reach it.
