# Farm earnings reports, modelled in Dafny

Two scripts report the minting receipts of a ThreeFold farm for a month:
- one writes a workbook, with one sheet per month of a range;
- the other writes a one-month CSV file.

Both scripts share the same core logic, and this project models it and proves its properties:

- **Month tokens.** A `M.YY` or `MM.YYYY` token is split on `.` and checked in this order:
  1. the month is read;
  2. the year length is checked, and a 2-character year is widened by 2000;
  3. the year is read;
  4. the month must be in 1..12;
  5. the year must be in 2015..current year.
- **Month ranges.** `first-last` expands to one `MM.YYYY` label per month, both ends included. Each label is parsed again when its sheet is built.
- **The receipt filter.** A Minting receipt is kept when its period start satisfies all of:
  - it is read as a local date;
  - it is moved two days later;
  - it falls in the target month.

  Each kept receipt becomes a six-field row.
- **Aggregation.**
  - The workbook collects the rows of all nodes in the order their fetches complete, then sorts them by node id. It writes one sheet per month in range order, each under the fixed header.
  - The CSV file holds the header and then the rows of the nodes in directory order, unsorted.

Modules:

- `Text`: `str.split` on one character, `int()`, `str()` and `{:02d}`.
- `Calendar`: civil dates and POSIX time. A day number counts days since 1970-01-01 as in "Seconds Since the Epoch" (IEEE Std 1003.1-2017, XBD section 4.16), using floor division. `datetime.fromtimestamp` is that conversion, shifted by a fixed UTC offset.
- `FixedPoint`: exact rationals, rounding half to even, and the text of `"{:.nf}"`.
- `Months`: target months, validation errors, `MM.YYYY` labels and month ranges.
- `Receipts`: receipts, the period filter shared by both scripts, and the derived quantities.
- `Lists`: list comprehension, `extend` in a loop, and the stable `list.sort(key=...)`.
- `XlsxReport`: the workbook script.
- `CsvReport`: the CSV script.

The values that come from outside are parameters:
- the current year;
- the UTC offset of the local time zone;
- the node histories returned by the HTTP API.

For the workbook these histories come in the order their fetches complete: `completed(i)` is the list for the i-th sheet. For the CSV file they come in directory order.

Behaviour worth noting, which one might expect to be otherwise:

- **Check order.** The year length is checked before the month range, which is checked before the year range. A failure of `int()` is its own error (`NotAnInteger`).
- **Reversed range.** A reversed range expands to no month. The workbook script then fails on `dates[0]` when it names the file (`EmptyRange`), so the run ends with an error and no workbook.
- **Node fetch failures.** Neither script recovers from a failed node fetch. An exception there ends the whole run; no node is skipped.
- **CSV order.** The CSV script does not sort its rows. They follow the node directory order, and within a node the receipt order.
- **Range file name.** In range mode the workbook file name uses the normalised labels of the first and last month. In single mode it uses the token exactly as typed, while the sheet title uses the normalised label.

## Model

| member | source | states |
|---|---|---|
| Text.Split | farm_earnings_xlsx-output.py:17 | the parts hold no separator, and joined with it they give back the token |
| Text.SplitTwo | farm_earnings_xlsx-output.py:17-19 | two separator-free fields joined by the separator split back into exactly those two fields |
| Text.SplitNoSeparator | farm_earnings_xlsx-output.py:17-18 | a token without the separator splits into itself alone |
| Text.NatToString | farm_earnings_xlsx-output.py:110 | `str(n)` is a non-empty digit string, without a leading zero, whose value is n |
| Text.ParseInt | farm_earnings_xlsx-output.py:20-25 | `int()` on a field: an optional sign then at least one ASCII digit, otherwise no value; an accepted field is non-empty, holds no '.', and reads negative only after a leading '-' |
| Text.IntToString | farm_earnings_xlsx-output.py:110 | `str(i)`: non-empty, and starts with '-' exactly when i is negative |
| Text.Pad2 | farm_earnings_xlsx-output.py:110 | `f"{n:02d}"`: at least two characters, and starts with '-' exactly when n is negative |
| Text.ParseNatToString | farm_earnings_xlsx-output.py:79 | `int(str(n)) == n` |
| Text.ParseIntToString | farm_earnings_xlsx-output.py:79 | `int(str(i)) == i` for negative integers too |
| Text.ParsePad2 | farm_earnings_xlsx-output.py:110 | `int(f"{n:02d}") == n`, and below 100 the text is exactly two characters |
| Text.NatToStringLength | farm_earnings_xlsx-output.py:110 | a number below 10^k has at most k digits; a 4-digit year is written with exactly 4 characters |
| Text.ParseIntBound | farm_earnings_xlsx-output.py:22-25 | `int()` of a k-character text lies strictly between -10^k and 10^k |
| Text.DigitsValueBound | farm_earnings_xlsx-output.py:22-25 | k digits spell a number below 10^k |
| Text.DigitsValueAppend | farm_earnings_xlsx-output.py:110 | the value of a concatenation of digit strings is the value of the first shifted by the length of the second, plus the value of the second |
| Text.DigitsInjective | farm_earnings_1mo_csv-output.py:14-18 | two digit strings of equal length that spell the same number are equal |
| Text.CanonicalDigits | farm_earnings_xlsx-output.py:110 | a digit string that is "0" or starts with a non-zero digit is `str` of its value |
| Calendar.LocalDay | farm_earnings_xlsx-output.py:57 | the local day number of `datetime.fromtimestamp(t)` at a fixed offset is the floor of (t + offset) / 86400: its day starts at or before that time and the next day after it |
| Calendar.YearOfDay | farm_earnings_xlsx-output.py:57 | the year found for a day number is the one whose days contain it |
| Calendar.CivilFromDays | farm_earnings_xlsx-output.py:57 | the date of a day number is a valid date whose day number is that day |
| Calendar.CivilRoundTrip | farm_earnings_xlsx-output.py:57 | converting a valid date to its day number and back gives the date |
| Calendar.YearUnique | farm_earnings_xlsx-output.py:57 | exactly one year contains a given day |
| Calendar.MonthUnique | farm_earnings_xlsx-output.py:57 | exactly one month of a year contains a given day of that year |
| Calendar.YearStep | farm_earnings_xlsx-output.py:58 | consecutive new years are a year length apart, 366 days in leap years and 365 otherwise |
| Calendar.LeapDays | farm_earnings_xlsx-output.py:58 | the leap-day counts of the epoch formula grow by one across a year end exactly when the year is a leap year |
| Calendar.YearsIncrease | farm_earnings_xlsx-output.py:57 | new years are strictly increasing |
| Calendar.MonthWindow | farm_earnings_xlsx-output.py:58-59 | a day falls in (year, month) exactly when it lies between that month's first day (included) and the next month's first day (excluded) |
| Calendar.NextMonthOfDecember | farm_earnings_xlsx-output.py:58-59 | the month after December starts on New Year's Day of the next year |
| Calendar.EpochAnchors | farm_earnings_xlsx-output.py:57 | 1970-01-01 is day 0, and 2001-01-01 starts at POSIX time 978307200 |
| Calendar.DayBeforeEpoch | farm_earnings_xlsx-output.py:57 | day -1 is 1969-12-31, so floor division carries the calendar before 1970 |
| FixedPoint.RoundHalfEven | farm_earnings_xlsx-output.py:41 | the result is at most half a unit from a/b, and on an exact tie it is even |
| FixedPoint.RoundTo | farm_earnings_xlsx-output.py:40-41 | `round(x, p)` has p decimals and lies within half a unit of the p-th decimal of x |
| FixedPoint.RoundExact | farm_earnings_xlsx-output.py:64 | rounding a value that already has p decimals returns it unchanged |
| FixedPoint.RoundUnique | farm_earnings_xlsx-output.py:41 | an integer strictly closer than half a unit to a/b is the rounded value |
| FixedPoint.HalfUnitUnique | farm_earnings_xlsx-output.py:41 | two integers within half a unit of a/b, one of them strictly, are equal |
| FixedPoint.Render | farm_earnings_1mo_csv-output.py:14-18 | `"{:.pf}"` of a non-negative decimal has an integer part without a leading zero, a point and exactly p fraction digits, and they spell the quotient and the remainder by 10^p |
| FixedPoint.RenderSpells | farm_earnings_1mo_csv-output.py:14-18 | for p >= 1 the rendering is the canonical text of the units: p fraction digits, and an integer part that is "0" or starts with a non-zero digit |
| FixedPoint.SpellsUnique | farm_earnings_1mo_csv-output.py:14-18 | at most one text spells given units with p places, so the rendering is fixed character by character |
| FixedPoint.ZeroFill | farm_earnings_1mo_csv-output.py:16-18 | zero-filling a digit string to width w keeps its value, and its length becomes max(length, w) |
| Months.Label | farm_earnings_xlsx-output.py:110 | `f"{month:02d}.{year}"`: the zero-padded month, a point and the year (round trip: XlsxReport.ParseLabel) |
| Months.MonthAt | farm_earnings_xlsx-output.py:111-114 | the month with index k has a month number in 1..12 and index k |
| Months.MonthAtIndex | farm_earnings_xlsx-output.py:111-114 | a month in 1..12 is recovered from its index |
| Months.RangeLabels | farm_earnings_xlsx-output.py:108-114 | the labels of the first n months of a range are n labels |
| Months.RangeLabelsStep | farm_earnings_xlsx-output.py:110 | one more month appends its label at the end |
| Months.RangeLabelsIndex | farm_earnings_xlsx-output.py:108-114 | the i-th label is the label of the i-th month of the range |
| Months.RangeMonthAt | farm_earnings_xlsx-output.py:111-114 | the month n places after the first is the month whose index is n more |
| Months.NotAfter | farm_earnings_xlsx-output.py:109 | the loop test (earlier year, or same year and month not later) holds iff the month index is not larger |
| Months.RangeShape | farm_earnings_xlsx-output.py:108-114 | every month of a range is in 1..12; the months are strictly ascending; the first is the start and the last is the end; no month between them is missing |
| Months.RangeMonthValid | farm_earnings_xlsx-output.py:106-114 | every month of a range between two valid months is itself valid and lies between their years |
| Months.RangeExample | farm_earnings_xlsx-output.py:108-114 | `01.23-03.23` gives the labels 01.2023, 02.2023 and 03.2023; the reversed range gives none |
| Months.Year2023 | farm_earnings_xlsx-output.py:110 | the year 2023 is written "2023" |
| Months.LabelIn2023 | farm_earnings_xlsx-output.py:110 | a month 1..9 of 2023 is labelled "0m.2023" |
| Receipts.AdjustedDate | farm_earnings_xlsx-output.py:57-58 | `start_date + timedelta(days=2)`: a valid date whose day number is the local day of the period start plus two |
| Receipts.Kept | farm_earnings_xlsx-output.py:54-59 | the filter test: a Minting receipt whose adjusted date has the target's year and month; only a month in 1..12 can keep anything (exact window: KeptWindow) |
| Receipts.RewardTft | farm_earnings_xlsx-output.py:64 | `reward.tft / 1e7` as an exact rational: the value times 10^7 is the reward in units |
| Receipts.UptimeDays | farm_earnings_xlsx-output.py:60 | `measured_uptime / (24 * 3600)` as an exact rational: the value times 86400 is the uptime in seconds |
| Receipts.UptimePercent | farm_earnings_xlsx-output.py:61 | `(uptime_days / 30.45) * 100` as an exact rational: the value times 30.45 is 100 times the uptime in days (the CSV script's line 41 is the same number) |
| Receipts.KeptReceipts | farm_earnings_xlsx-output.py:53-59 | the filter never yields more receipts than the history holds |
| Receipts.KeptMultiset | farm_earnings_xlsx-output.py:53-59 | a receipt that passes the filter is kept as often as it occurs; any other receipt never is |
| Receipts.KeptMembers | farm_earnings_xlsx-output.py:53-59 | a receipt is kept iff it is in the history and passes the filter |
| Receipts.KeptAppend | farm_earnings_xlsx-output.py:53-59 | filtering commutes with concatenation, so kept receipts keep their history order |
| Receipts.OtherNeverKept | farm_earnings_xlsx-output.py:54 | a history of non-Minting receipts yields nothing, whatever the month |
| Receipts.KeptWindow | farm_earnings_xlsx-output.py:56-59 | a Minting receipt is kept iff its local period start lies between two days before the month's first midnight (included) and two days before the next month's first midnight (excluded) |
| Receipts.FloorWindow | farm_earnings_xlsx-output.py:57 | the day of a time lies in [lo, hi) iff the time lies in [lo × 86400, hi × 86400) |
| Receipts.HistoryRows | farm_earnings_xlsx-output.py:52-70 | a node history yields one row per kept receipt, whichever script's row is built |
| Receipts.NodeRows | farm_earnings_xlsx-output.py:84-88 | there is one row list per node history |
| Receipts.HistoryRowsStep | farm_earnings_xlsx-output.py:52-70 | one more receipt appends its row iff the filter keeps it |
| Receipts.HistoryRowsSingle | farm_earnings_xlsx-output.py:53-59 | a single receipt yields its row iff the filter keeps it |
| Receipts.HistoryRowsAppend | farm_earnings_1mo_csv-output.py:30-51 | the rows of two histories read in turn are the rows of each, in turn |
| Receipts.NodeRowsStep | farm_earnings_1mo_csv-output.py:56-58 | one more node history appends that node's rows |
| Receipts.BoundaryExample | farm_earnings_xlsx-output.py:56-59 | at UTC a period counts for March 2023 iff it starts in [1677456000, 1680134400), i.e. from 2023-02-27 to before 2023-03-30 |
| Lists.Map | farm_earnings_xlsx-output.py:84 | the comprehension has one element per input element |
| Lists.Filter | farm_earnings_xlsx-output.py:53-59 | the filtered list is no longer than the input and every element passes the test |
| Lists.FilterAppend | farm_earnings_xlsx-output.py:53-59 | filtering a concatenation filters each part, in turn |
| Lists.FilterMultiset | farm_earnings_xlsx-output.py:53-59 | an element that passes is kept as often as it occurs, any other never |
| Lists.FilterNone | farm_earnings_xlsx-output.py:53-59 | a list none of whose elements passes filters to nothing |
| Lists.Tabulate | farm_earnings_xlsx-output.py:108-114 | tabulating n values gives n elements |
| Lists.TabulateIndex | farm_earnings_xlsx-output.py:108-114 | the i-th tabulated element is f(i) |
| Lists.MapIndex | farm_earnings_xlsx-output.py:84 | the i-th element of the comprehension is f of the i-th input element |
| Lists.MapAppend | farm_earnings_xlsx-output.py:84 | the comprehension over a concatenation is the concatenation of the comprehensions |
| Lists.MapMultiset | farm_earnings_xlsx-output.py:84-88 | reordering the inputs only reorders the outputs |
| Lists.MapRemove | farm_earnings_xlsx-output.py:84-88 | the outputs of a list are those of the list without position j, plus f of the element there |
| Lists.ConcatAppend | farm_earnings_xlsx-output.py:88 | extending by one more list appends its elements at the end |
| Lists.SortBy | farm_earnings_xlsx-output.py:90 | the sorted list is ascending by key and is a permutation of the input |
| Lists.InsertSorted | farm_earnings_xlsx-output.py:90 | insertion keeps a sorted list sorted |
| Lists.InsertMultiset | farm_earnings_xlsx-output.py:90 | insertion adds exactly the new element: one more element, and the multiset gains x |
| Lists.WithKeyInsert | farm_earnings_xlsx-output.py:90 | insertion places the new element before the later elements of its key |
| Lists.SortStable | farm_earnings_xlsx-output.py:90 | the sort keeps the elements of each key in their original order |
| Lists.SortedUnique | farm_earnings_xlsx-output.py:90 | two sequences sorted by key, with the same elements of every key in the same order, are equal: the stable sort has one outcome |
| Lists.WithKeyAppend | farm_earnings_xlsx-output.py:88-90 | the elements of one key in a concatenation are those of each part, in turn |
| Lists.WithKeyMembers | farm_earnings_xlsx-output.py:90 | the elements picked for key k come from the list and have key k |
| Lists.WithKeyAbsent | farm_earnings_xlsx-output.py:90 | a list without key k has no elements of key k |
| Lists.WithKeyOfHead | farm_earnings_xlsx-output.py:90 | the key of the first element picks that element first |
| Lists.WithKeyEmpty | farm_earnings_xlsx-output.py:90 | a list with no element of any key is empty |
| Lists.WithKeyWhole | farm_earnings_xlsx-output.py:90 | a list all of whose elements have key k is its own key-k part |
| Lists.WithKeyConcatAbsent | farm_earnings_xlsx-output.py:88-90 | without a node list of key k, the collected rows have no row of key k |
| Lists.WithKeyConcatGroup | farm_earnings_xlsx-output.py:88-90 | with one list per key, the collected rows of key k are exactly that list |
| Lists.SplitGroups | farm_earnings_xlsx-output.py:88-90 | the lists after the first are still uniform and separated, and the first is one occurrence of the collection |
| Lists.HeadGroupOnly | farm_earnings_xlsx-output.py:88-90 | with separated lists, no later non-empty list has the key of the first |
| Lists.SortConcatOrderFree | farm_earnings_xlsx-output.py:85-90 | collecting uniform, separated lists in any order and then sorting gives the same result |
| XlsxReport.WidenYear | farm_earnings_xlsx-output.py:22-25 | a 2-character year field stands for 2000 plus its value, a 4-character one for its value (properties: TwoDigitYear, FourDigitYear) |
| XlsxReport.CheckYearAndMonth | farm_earnings_xlsx-output.py:22-36 | the checks after the month is read, shared by both scripts: an accepted month is valid; the year-format error is raised iff the year field is neither 2 nor 4 characters; the `int()` error iff a 2- or 4-character year field does not read as an integer; the date-format and missing-year errors never come from here |
| XlsxReport.ParseMonthYear | farm_earnings_xlsx-output.py:16-38 | an accepted token is a valid month (1..12, 2015..current year, year at most 9999); the date-format error is raised iff the token does not split into exactly two fields; the `int()` error iff there are two fields and the month field, or a 2- or 4-character year field, does not read as an integer |
| XlsxReport.MonthReadFirst | farm_earnings_xlsx-output.py:17-20 | a month field that `int()` refuses gives the `int()` error, whatever the year field |
| XlsxReport.YearReadBeforeMonthRange | farm_earnings_xlsx-output.py:20-30 | with a readable month, a 2- or 4-character year field that `int()` refuses gives the `int()` error even when the month is out of range ("13.ab") |
| XlsxReport.TwoDigitYear | farm_earnings_xlsx-output.py:22-23 | a 2-character year field stands for 2000 plus its value |
| XlsxReport.FourDigitYear | farm_earnings_xlsx-output.py:24-25 | a 4-character year field stands for its own value |
| XlsxReport.YearLengthFirst | farm_earnings_xlsx-output.py:22-27 | a year field of any other length is refused with the year-format error, before the month and year ranges are looked at |
| XlsxReport.MonthBeforeYearRange | farm_earnings_xlsx-output.py:29-34 | with readable fields, a month outside 1..12 is refused whatever the year |
| XlsxReport.YearRangeLast | farm_earnings_xlsx-output.py:29-36 | with readable fields and a valid month, the token is accepted iff the widened year is in 2015..current year |
| XlsxReport.ParseLabel | farm_earnings_xlsx-output.py:79-80 | the `MM.YYYY` label of a valid month parses back to that month |
| XlsxReport.ExpandRange | farm_earnings_xlsx-output.py:108-114 | the loop emits exactly the labels of the months of the range, in order, as many as the range length (none when reversed) |
| XlsxReport.RangeLabelsParse | farm_earnings_xlsx-output.py:78-79 | every label of a range between two parsed months parses back to its month |
| XlsxReport.RowOf | farm_earnings_xlsx-output.py:60-69 | the row has the receipt's node id and hash, the exact reward in TFT at 7 decimals, the period 30.45, and uptime days and percent within half a hundredth of the exact values |
| XlsxReport.RowKey | farm_earnings_xlsx-output.py:90 | `key=lambda x: x[0]`: a row's sort key is its node id (properties: SheetRows, SortStable) |
| XlsxReport.FetchNodeMintingHistory | farm_earnings_xlsx-output.py:48-70 | the loop yields the rows of the kept receipts, in history order |
| XlsxReport.CollectRows | farm_earnings_xlsx-output.py:85-88 | the collected rows are those of every node, in completion order |
| XlsxReport.MonthSheet | farm_earnings_xlsx-output.py:80-93 | the reference sheet of a month: its label as title, the header, and all nodes' rows collected in completion order and sorted by node id (properties: SheetRows, SheetOrderFree) |
| XlsxReport.BuildSheet | farm_earnings_xlsx-output.py:79-93 | the sheet built for a month is the month's sheet: its label as title, the header, and the collected rows sorted by node id (see SheetRows) |
| XlsxReport.CreateWorkbook | farm_earnings_xlsx-output.py:72-94 | the workbook succeeds iff every date parses, and then has one sheet per date, in order, each titled by the label, headed, and sorted by node id; otherwise the first failing date's error is returned |
| XlsxReport.RangeWorkbook | farm_earnings_xlsx-output.py:108-116 | a non-empty range gives one sheet per month, in order, in a file named after the first and last labels; a reversed range ends with an error |
| XlsxReport.SingleWorkbook | farm_earnings_xlsx-output.py:117-119 | a single token gives its one sheet in a file named after the token as typed, or the token's parse error |
| XlsxReport.Run | farm_earnings_xlsx-output.py:103-119 | dispatches on '-': a range of more than two parts, a bad endpoint (start first) or a reversed range is an error; otherwise the workbook above |
| XlsxReport.SheetRows | farm_earnings_xlsx-output.py:90-93 | a sheet's rows are ascending by node id and are a permutation of all nodes' rows |
| XlsxReport.SheetOrderFree | farm_earnings_xlsx-output.py:84-90 | two completion orders of the same node histories give the same sheet |
| CsvReport.ValidateMonthYear | farm_earnings_1mo_csv-output.py:73-92 | an accepted token is a valid month; the missing-year error is raised iff the token has no '.' and its month reads as an integer; the `int()` error iff the month field, or a 2- or 4-character second field, does not read as an integer |
| CsvReport.ValidateAsParse | farm_earnings_1mo_csv-output.py:73-92 | with two or more fields the validation decides as the workbook parser does on the first two fields, with the same checks in the same order |
| CsvReport.ValidateTwoFields | farm_earnings_1mo_csv-output.py:73-80 | on a token of exactly two fields both scripts give the same result |
| CsvReport.Decimals | farm_earnings_1mo_csv-output.py:15-18 | `format_float` writes 2 decimals when asked for 2 and 7 for any other precision |
| CsvReport.FormatFloat | farm_earnings_1mo_csv-output.py:14-18 | the text starts with '-' iff the value is negative; the magnitude has exactly 2 decimals when the precision is 2 and 7 otherwise, no leading zero in its integer part, and spells the value rounded half to even, which fixes the text exactly |
| CsvReport.NonNegativeRounding | farm_earnings_1mo_csv-output.py:14-18 | rounding a non-negative value never gives a negative number |
| CsvReport.RowOf | farm_earnings_1mo_csv-output.py:43-50 | the row has the receipt's node id, its hash and the period 30.45 (its numbers: SameNumbersAsWorkbook) |
| CsvReport.FetchNodeMintingHistory | farm_earnings_1mo_csv-output.py:26-51 | the loop yields the rows of the kept receipts, in history order |
| CsvReport.ProcessFarm | farm_earnings_1mo_csv-output.py:53-64 | the file is named `<farm>_farm_earnings_MM.YYYY.csv`, holds the header, then every node's rows in directory order |
| CsvReport.Run | farm_earnings_1mo_csv-output.py:72-94 | an invalid token ends the run with its error and no file; a valid one writes the month's file: its name, the header, then every node's rows in directory order |
| CsvReport.RowsInDirectoryOrder | farm_earnings_1mo_csv-output.py:55-58 | no sort and no deduplication: the rows are those of the kept receipts of all histories, read one after the other |
| CsvReport.SameNumbersAsWorkbook | farm_earnings_1mo_csv-output.py:40-48 | the CSV texts of reward, uptime days and uptime percent spell the workbook's rounded numbers |
| CsvReport.FullPeriodExample | farm_earnings_1mo_csv-output.py:40-47 | 2630880 s of uptime is written as "30.45" days and "100.00" percent |
| CsvReport.FullPeriodDays | farm_earnings_1mo_csv-output.py:40-47 | 2630880 s of uptime is written as "30.45" days |
| CsvReport.FullPeriodPercent | farm_earnings_1mo_csv-output.py:41-48 | 2630880 s of uptime is written as "100.00" percent |
| CsvReport.RenderNominalDays | farm_earnings_1mo_csv-output.py:16 | 3045 hundredths are written "30.45" |
| CsvReport.RenderHundred | farm_earnings_1mo_csv-output.py:16 | 10000 hundredths are written "100.00" |

## Left out

- The HTTP requests of `fetch_farm_nodes` and `fetch_node_minting_history`, and JSON decoding. Their results are inputs: the node histories, one list per node.
- The thread pool and `as_completed`. The workbook model takes the node histories in completion order and proves that the order does not matter (`SheetOrderFree`). Worker limits, the shared session and timing are not modelled.
- openpyxl and the csv module. Sheets and files are values (title, header, rows), and `wb.save` and the file write are not modelled. The printed messages, usage text, exit codes and the catch-all `except` are not modelled either: an error is returned as a `DateError` value, not as its message.
- XlsxReport.RowOf: rounds the exact quotient rather than the binary floating-point value, so float artefacts are not captured. This includes the scientific notation the scripts mention for February 2023.
- CsvReport.FormatFloat: formats the exact rational rather than the binary float that `"{:.nf}"` sees.
- `datetime.now()` is the `currentYear` parameter. The time-zone database and daylight-saving changes are replaced by one fixed UTC offset. The errors `datetime.fromtimestamp` raises for years outside 1..9999 are not modelled.
- `int()` is modelled as an optional sign followed by ASCII digits. Surrounding whitespace, `_` separators and non-ASCII digits, which Python also accepts, are not.
- Extra command-line arguments after the token, and a missing token, are not modelled.
- Failures of a node fetch are not inputs of the model. In the scripts such an exception ends the run.
- XlsxReport.SheetOrderFree: requires that each node's rows carry one node id and that no two nodes share one. If two nodes did share an id, their rows would keep completion order under the stable sort.
- XlsxReport.ExpandRange: requires both months in 1..12, as the parser guarantees. The script never runs the loop on anything else.
