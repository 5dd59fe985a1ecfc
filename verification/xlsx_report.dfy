/**
 * The workbook report: `parse_month_year`, the expansion of a month range,
 * the rows of one node's history, and the sheets of the workbook, one per
 * month, whose rows are collected from all nodes in the order their fetches
 * complete and then sorted by node id.
 *
 * The HTTP requests are replaced by their results: for the i-th sheet,
 * `completed(i)` is the list of the farm's node histories in the order their
 * fetches completed.
 */
module XlsxReport {

  import opened Text
  import opened Calendar
  import opened FixedPoint
  import opened Months
  import opened Receipts
  import opened Lists

  /** One row of a sheet: the cells are numbers, except the hash. */
  datatype Row = Row(
    nodeId: int,
    reward: Fixed,
    period: Fixed,
    uptimeDays: Fixed,
    uptimePercent: Fixed,
    hash: string)

  /** A worksheet: its title, the header line, then the rows. */
  datatype Sheet = Sheet(title: string, header: seq<string>, rows: seq<Row>)

  /** What the run saves: the file name and the sheets in workbook order. */
  datatype Workbook = Workbook(filename: string, sheets: seq<Sheet>)

  // ---------------------------------------------------------------------
  // Parsing a month token

  /** The year a year field stands for: two characters are widened by 2000. */
  function WidenYear(yearText: string, value: int): int {
    if |yearText| == 2 then value + 2000 else value
  }

  /**
   * What both reports do once the month field has been read: check the year
   * field's length, read the year, then check the month and finally the year
   * range.
   */
  function CheckYearAndMonth(month: int, yearText: string, currentYear: int): (r: Result<TargetMonth>)
    ensures r.Ok? ==> ValidTarget(r.value, currentYear) && r.value.year <= 9999
    ensures r.Err? ==> r.error != DateFormat && r.error != MissingYear
    ensures r == Err(YearFormat) <==> |yearText| != 2 && |yearText| != 4
    ensures r == Err(NotAnInteger) <==> (|yearText| == 2 || |yearText| == 4) && ParseInt(yearText).None?
  {
    if |yearText| != 2 && |yearText| != 4 then Err(YearFormat)
    else
      match ParseInt(yearText)
      case None => Err(NotAnInteger)
      case Some(value) =>
        var year := WidenYear(yearText, value);
        ParseIntBound(yearText);
        assert Pow10(4) == 10000;
        if !(1 <= month <= 12) then Err(InvalidMonth)
        else if !(FirstYear <= year <= currentYear) then Err(InvalidYear)
        else Ok(TargetMonth(month, year))
  }

  /**
   * `parse_month_year`: split on '.', refuse anything but two fields, read the
   * month, then check the year and the month as above.
   */
  function ParseMonthYear(token: string, currentYear: int): (r: Result<TargetMonth>)
    ensures r.Ok? ==> ValidTarget(r.value, currentYear) && r.value.year <= 9999
    ensures r == Err(DateFormat) <==> |Split(token, '.')| != 2
    ensures var parts := Split(token, '.');
      r == Err(NotAnInteger) <==> (|parts| == 2 && (ParseInt(parts[0]).None?
        || ((|parts[1]| == 2 || |parts[1]| == 4) && ParseInt(parts[1]).None?)))
  {
    var parts := Split(token, '.');
    if |parts| != 2 then Err(DateFormat)
    else
      match ParseInt(parts[0])
      case None => Err(NotAnInteger)
      case Some(month) => CheckYearAndMonth(month, parts[1], currentYear)
  }

  /** A two-character year field stands for 2000 plus its value. */
  lemma TwoDigitYear(monthText: string, yearText: string, currentYear: int)
    requires '.' !in monthText && '.' !in yearText && |yearText| == 2
    ensures var r := ParseMonthYear(monthText + "." + yearText, currentYear);
      r.Ok? ==> (ParseInt(yearText).Some? && r.value.year == ParseInt(yearText).value + 2000
        && 2000 - 99 <= r.value.year <= 2000 + 99
        && Some(r.value.month) == ParseInt(monthText))
  {
    SplitTwo(monthText, yearText, '.');
    ParseIntBound(yearText);
    assert Pow10(2) == 100;
  }

  /** A four-character year field stands for its own value. */
  lemma FourDigitYear(monthText: string, yearText: string, currentYear: int)
    requires '.' !in monthText && '.' !in yearText && |yearText| == 4
    ensures var r := ParseMonthYear(monthText + "." + yearText, currentYear);
      r.Ok? ==> Some(r.value.year) == ParseInt(yearText) && Some(r.value.month) == ParseInt(monthText)
  {
    SplitTwo(monthText, yearText, '.');
  }

  /** A month field that `int()` refuses is reported before anything about the year. */
  lemma MonthReadFirst(monthText: string, yearText: string, currentYear: int)
    requires '.' !in monthText && '.' !in yearText && ParseInt(monthText).None?
    ensures ParseMonthYear(monthText + "." + yearText, currentYear) == Err(NotAnInteger)
  {
    SplitTwo(monthText, yearText, '.');
  }

  /**
   * A year field of the right length that `int()` refuses is reported before
   * the month range is checked, so "13.ab" fails on the year, not the month.
   */
  lemma YearReadBeforeMonthRange(monthText: string, yearText: string, currentYear: int)
    requires '.' !in monthText && '.' !in yearText && ParseInt(monthText).Some?
    requires (|yearText| == 2 || |yearText| == 4) && ParseInt(yearText).None?
    ensures ParseMonthYear(monthText + "." + yearText, currentYear) == Err(NotAnInteger)
  {
    SplitTwo(monthText, yearText, '.');
  }

  /** A year field of any other length is refused, whatever the month and the year say. */
  lemma YearLengthFirst(monthText: string, yearText: string, currentYear: int)
    requires '.' !in monthText && '.' !in yearText
    requires ParseInt(monthText).Some? && |yearText| != 2 && |yearText| != 4
    ensures ParseMonthYear(monthText + "." + yearText, currentYear) == Err(YearFormat)
  {
    SplitTwo(monthText, yearText, '.');
  }

  /** With well-formed fields, a month outside 1..12 is refused before the year range is looked at. */
  lemma MonthBeforeYearRange(monthText: string, yearText: string, currentYear: int)
    requires '.' !in monthText && '.' !in yearText
    requires (|yearText| == 2 || |yearText| == 4) && ParseInt(yearText).Some?
    requires ParseInt(monthText).Some? && !(1 <= ParseInt(monthText).value <= 12)
    ensures ParseMonthYear(monthText + "." + yearText, currentYear) == Err(InvalidMonth)
  {
    SplitTwo(monthText, yearText, '.');
  }

  /** With well-formed fields and a month in 1..12, a year outside 2015..current year is refused. */
  lemma YearRangeLast(monthText: string, yearText: string, currentYear: int)
    requires '.' !in monthText && '.' !in yearText
    requires (|yearText| == 2 || |yearText| == 4) && ParseInt(yearText).Some?
    requires ParseInt(monthText).Some? && 1 <= ParseInt(monthText).value <= 12
    ensures var year := WidenYear(yearText, ParseInt(yearText).value);
      ParseMonthYear(monthText + "." + yearText, currentYear) ==
        if FirstYear <= year <= currentYear then Ok(TargetMonth(ParseInt(monthText).value, year))
        else Err(InvalidYear)
  {
    SplitTwo(monthText, yearText, '.');
  }

  /** Round trip: the `MM.YYYY` label of a valid month parses back to that month. */
  lemma ParseLabel(t: TargetMonth, currentYear: int)
    requires ValidTarget(t, currentYear) && t.year <= 9999
    ensures ParseMonthYear(Label(t), currentYear) == Ok(t)
  {
    var monthText, yearText := Pad2(t.month), NatToString(t.year);
    assert Label(t) == monthText + "." + yearText;
    ParsePad2(t.month);
    assert '.' !in monthText by {
      assert AllDigits(monthText);
    }
    assert '.' !in yearText by {
      assert AllDigits(yearText);
    }
    SplitTwo(monthText, yearText, '.');
    assert Pow10(4) == 10000;
    NatToStringLength(t.year, 4);
    ParseNatToString(t.year);
  }

  // ---------------------------------------------------------------------
  // Month ranges

  /**
   * The range loop: from the first month to the last one, both included,
   * stepping a month at a time and wrapping December into January of the
   * next year, one `MM.YYYY` label per month.
   */
  method ExpandRange(first: TargetMonth, last: TargetMonth) returns (dates: seq<string>)
    requires 1 <= first.month <= 12 && 1 <= last.month <= 12
    ensures dates == RangeLabels(first, RangeLength(first, last))
  {
    var month, year := first.month, first.year;
    dates := [];
    while year < last.year || (year == last.year && month <= last.month)
      invariant 1 <= month <= 12
      invariant MonthIndex(TargetMonth(month, year)) == MonthIndex(first) + |dates|
      invariant |dates| <= RangeLength(first, last)
      invariant dates == RangeLabels(first, |dates|)
      decreases MonthIndex(last) - MonthIndex(TargetMonth(month, year))
    {
      var current, n := TargetMonth(month, year), |dates|;
      NotAfter(current, last);
      RangeMonthAt(first, n, current);
      RangeLabelsStep(first, n);
      dates := dates + [Label(current)];
      month := month + 1;
      if month > 12 {
        month := 1;
        year := year + 1;
      }
    }
    NotAfter(TargetMonth(month, year), last);
  }

  /** Every label of a range between two parsed months parses back to its month. */
  lemma RangeLabelsParse(first: TargetMonth, last: TargetMonth, currentYear: int, i: int)
    requires ValidTarget(first, currentYear) && ValidTarget(last, currentYear) && last.year <= 9999
    requires 0 <= i < RangeLength(first, last)
    ensures ParseMonthYear(Label(RangeMonth(first, i)), currentYear) == Ok(RangeMonth(first, i))
  {
    RangeMonthValid(first, last, i, currentYear);
    ParseLabel(RangeMonth(first, i), currentYear);
  }

  // ---------------------------------------------------------------------
  // Rows

  /** The row of a kept Minting receipt. */
  function RowOf(r: MintingReceipt): (row: Row)
    ensures row.nodeId == r.kind.nodeId && row.hash == r.hash
    ensures row.reward == Fixed(r.kind.rewardTft, 7)
    ensures row.period == Fixed(3045, 2)
    ensures row.uptimeDays.scale == 2 && row.uptimePercent.scale == 2
    ensures 2 * Abs(row.uptimeDays.units * SecondsPerDay - r.kind.measuredUptime * 100) <= SecondsPerDay
    ensures 2 * Abs(row.uptimePercent.units * SecondsPerDay * 3045 - r.kind.measuredUptime * 10000 * 100)
      <= SecondsPerDay * 3045
  {
    RoundExact(r.kind.rewardTft, UnitsPerTft);
    assert Pow10(7) == UnitsPerTft;
    var days := RoundTo(UptimeDays(r.kind.measuredUptime), 2);
    var percent := RoundTo(UptimePercent(r.kind.measuredUptime), 2);
    assert Pow10(2) == 100;
    Row(r.kind.nodeId, RoundTo(RewardTft(r.kind.rewardTft), 7), NominalPeriodDays, days, percent, r.hash)
  }

  /** The key the rows are sorted by: the node id. */
  function RowKey(row: Row): int {
    row.nodeId
  }

  /**
   * The filter loop of `fetch_node_minting_history`: one row per kept receipt,
   * in history order.
   */
  method FetchNodeMintingHistory(history: seq<Receipt>, target: TargetMonth, utcOffset: int)
    returns (data: seq<Row>)
    ensures data == HistoryRows(RowOf, history, target, utcOffset)
  {
    data := [];
    for i := 0 to |history|
      invariant data == HistoryRows(RowOf, history[..i], target, utcOffset)
    {
      var item := history[i];
      HistoryRowsStep(RowOf, history, i, target, utcOffset);
      if item.kind.Minting? {
        var adjusted := AdjustedDate(item.kind.periodStart, utcOffset);
        if adjusted.year == target.year && adjusted.month == target.month {
          data := data + [RowOf(item)];
        }
      }
    }
    assert history[..|history|] == history;
  }

  // ---------------------------------------------------------------------
  // Sheets

  /**
   * The sheet of one month: its label as title, the header, then the rows of
   * all nodes collected in completion order and sorted by node id.
   */
  function MonthSheet(target: TargetMonth, completed: seq<seq<Receipt>>, utcOffset: int): Sheet {
    Sheet(Label(target), Header, SortBy(RowKey, Concat(NodeRows(RowOf, completed, target, utcOffset))))
  }

  /**
   * The collection loop of one month: the rows of each node's history,
   * appended in the order the fetches complete.
   */
  method CollectRows(histories: seq<seq<Receipt>>, target: TargetMonth, utcOffset: int)
    returns (allData: seq<Row>)
    ensures allData == Concat(NodeRows(RowOf, histories, target, utcOffset))
  {
    allData := [];
    for n := 0 to |histories|
      invariant allData == Concat(NodeRows(RowOf, histories[..n], target, utcOffset))
    {
      var data := FetchNodeMintingHistory(histories[n], target, utcOffset);
      NodeRowsStep(RowOf, histories, n, target, utcOffset);
      allData := allData + data;
    }
    assert histories[..|histories|] == histories;
  }

  /**
   * One sheet of `create_workbook`: titled by the label, headed, then the
   * collected rows sorted by node id.
   */
  method BuildSheet(target: TargetMonth, completed: seq<seq<Receipt>>, utcOffset: int) returns (sheet: Sheet)
    ensures sheet == MonthSheet(target, completed, utcOffset)
  {
    var allData := CollectRows(completed, target, utcOffset);
    allData := SortBy(RowKey, allData);
    sheet := Sheet(Pad2(target.month) + "." + IntToString(target.year), Header, allData);
  }

  /**
   * `create_workbook`: for each date in turn, parse it, then collect the rows
   * of every node in the order the fetches complete, sort them by node id and
   * write them under the header. The first date that does not parse ends the run.
   */
  method CreateWorkbook(dates: seq<string>, currentYear: int, utcOffset: int, completed: nat -> seq<seq<Receipt>>)
    returns (r: Result<seq<Sheet>>)
    ensures r.Ok? <==> forall i :: 0 <= i < |dates| ==> ParseMonthYear(dates[i], currentYear).Ok?
    ensures r.Ok? ==> |r.value| == |dates| && forall i :: 0 <= i < |dates| ==>
      r.value[i] == MonthSheet(ParseMonthYear(dates[i], currentYear).value, completed(i), utcOffset)
    ensures r.Err? ==> exists j :: (0 <= j < |dates| && ParseMonthYear(dates[j], currentYear) == Err(r.error)
      && forall i :: 0 <= i < j ==> ParseMonthYear(dates[i], currentYear).Ok?)
  {
    var sheets: seq<Sheet> := [];
    for i := 0 to |dates|
      invariant |sheets| == i
      invariant forall j :: 0 <= j < i ==> (ParseMonthYear(dates[j], currentYear).Ok?
        && sheets[j] == MonthSheet(ParseMonthYear(dates[j], currentYear).value, completed(j), utcOffset))
    {
      var parsed := ParseMonthYear(dates[i], currentYear);
      if parsed.Err? {
        return Err(parsed.error);
      }
      var sheet := BuildSheet(parsed.value, completed(i), utcOffset);
      sheets := sheets + [sheet];
      assert sheets[i] == MonthSheet(parsed.value, completed(i), utcOffset);
    }
    return Ok(sheets);
  }

  /**
   * The range branch once both ends have parsed: expand the range, build one
   * sheet per month, and name the file after the first and the last label;
   * a reversed range has no first label, which ends the run.
   */
  method RangeWorkbook(farmId: string, first: TargetMonth, last: TargetMonth, currentYear: int, utcOffset: int,
                       completed: nat -> seq<seq<Receipt>>)
    returns (r: Result<Workbook>)
    requires ValidTarget(first, currentYear) && ValidTarget(last, currentYear) && last.year <= 9999
    ensures RangeLength(first, last) == 0 ==> r == Err(EmptyRange)
    ensures RangeLength(first, last) > 0 ==> (r.Ok?
      && r.value.filename == farmId + "_farm_earnings_" + Label(first) + "_to_" + Label(last) + ".xlsx"
      && |r.value.sheets| == RangeLength(first, last)
      && forall i :: 0 <= i < RangeLength(first, last) ==>
        r.value.sheets[i] == MonthSheet(RangeMonth(first, i), completed(i), utcOffset))
  {
    var dates := ExpandRange(first, last);
    RangeLabelsIndex(first, |dates|);
    forall i | 0 <= i < |dates| ensures ParseMonthYear(dates[i], currentYear) == Ok(RangeMonth(first, i)) {
      RangeLabelsParse(first, last, currentYear, i);
    }
    var sheets := CreateWorkbook(dates, currentYear, utcOffset, completed);
    assert sheets.Ok?;
    if |dates| == 0 {
      return Err(EmptyRange);
    }
    RangeShape(first, last);
    var filename := farmId + "_farm_earnings_" + dates[0] + "_to_" + dates[|dates| - 1] + ".xlsx";
    return Ok(Workbook(filename, sheets.value));
  }

  /** The single-month branch: one sheet, and the file named after the token as typed. */
  method SingleWorkbook(farmId: string, token: string, currentYear: int, utcOffset: int,
                        completed: nat -> seq<seq<Receipt>>)
    returns (r: Result<Workbook>)
    ensures match ParseMonthYear(token, currentYear)
      case Err(e) => r == Err(e)
      case Ok(t) => r == Ok(Workbook(farmId + "_farm_earnings_" + token + ".xlsx", [MonthSheet(t, completed(0), utcOffset)]))
  {
    var dates := [token];
    assert dates[0] == token;
    var sheets := CreateWorkbook(dates, currentYear, utcOffset, completed);
    if sheets.Err? {
      var j :| 0 <= j < |dates| && ParseMonthYear(dates[j], currentYear) == Err(sheets.error);
      assert j == 0;
      return Err(sheets.error);
    }
    var t := ParseMonthYear(token, currentYear).value;
    assert sheets.value == [MonthSheet(t, completed(0), utcOffset)];
    return Ok(Workbook(farmId + "_farm_earnings_" + token + ".xlsx", sheets.value));
  }

  /**
   * The run for the command-line argument: a token with a '-' is a range of
   * two month tokens, each parsed in turn; any other token is a single month,
   * saved under the token as typed.
   */
  method Run(farmId: string, token: string, currentYear: int, utcOffset: int, completed: nat -> seq<seq<Receipt>>)
    returns (r: Result<Workbook>)
    ensures '-' !in token ==> match ParseMonthYear(token, currentYear)
      case Err(e) => r == Err(e)
      case Ok(t) => r == Ok(Workbook(farmId + "_farm_earnings_" + token + ".xlsx", [MonthSheet(t, completed(0), utcOffset)]))
    ensures '-' in token && |Split(token, '-')| != 2 ==> r == Err(RangeFormat)
    ensures '-' in token && |Split(token, '-')| == 2 ==>
      var first, last := ParseMonthYear(Split(token, '-')[0], currentYear), ParseMonthYear(Split(token, '-')[1], currentYear);
      if first.Err? then r == Err(first.error)
      else if last.Err? then r == Err(last.error)
      else if RangeLength(first.value, last.value) == 0 then r == Err(EmptyRange)
      else
        r.Ok? && r.value.filename == farmId + "_farm_earnings_" + Label(first.value) + "_to_" + Label(last.value) + ".xlsx"
        && |r.value.sheets| == RangeLength(first.value, last.value)
        && forall i :: 0 <= i < RangeLength(first.value, last.value) ==>
          r.value.sheets[i] == MonthSheet(RangeMonth(first.value, i), completed(i), utcOffset)
  {
    if '-' in token {
      var parts := Split(token, '-');
      if |parts| != 2 {
        return Err(RangeFormat);
      }
      var start := ParseMonthYear(parts[0], currentYear);
      if start.Err? {
        return Err(start.error);
      }
      var end := ParseMonthYear(parts[1], currentYear);
      if end.Err? {
        return Err(end.error);
      }
      r := RangeWorkbook(farmId, start.value, end.value, currentYear, utcOffset, completed);
    } else {
      r := SingleWorkbook(farmId, token, currentYear, utcOffset, completed);
    }
  }

  // ---------------------------------------------------------------------
  // Properties of a sheet

  /**
   * The rows of a month's sheet are the rows of all nodes' histories, each
   * exactly as often as the nodes yield it, in ascending node id order.
   */
  lemma SheetRows(target: TargetMonth, completed: seq<seq<Receipt>>, utcOffset: int)
    ensures var rows := MonthSheet(target, completed, utcOffset).rows;
      SortedBy(RowKey, rows) && multiset(rows) == multiset(Concat(NodeRows(RowOf, completed, target, utcOffset)))
  {
  }

  /**
   * Completion order does not matter: two orders of the same node histories
   * give the same sheet, provided each node's rows carry one node id and no
   * two nodes' rows share one.
   */
  lemma SheetOrderFree(target: TargetMonth, first: seq<seq<Receipt>>, second: seq<seq<Receipt>>, utcOffset: int)
    requires multiset(first) == multiset(second)
    requires Uniform(RowKey, NodeRows(RowOf, first, target, utcOffset))
    requires Separated(RowKey, NodeRows(RowOf, first, target, utcOffset))
    ensures MonthSheet(target, first, utcOffset) == MonthSheet(target, second, utcOffset)
  {
    MapMultiset(h => HistoryRows(RowOf, h, target, utcOffset), first, second);
    SortConcatOrderFree(RowKey, NodeRows(RowOf, first, target, utcOffset), NodeRows(RowOf, second, target, utcOffset));
  }
}
