/**
 * The one-month CSV report: the month/year validation done at module level,
 * `format_float` as text, the rows of one node's history, and `process_farm`,
 * which writes the header and then the rows of every node in the order the
 * node directory lists them, without sorting.
 *
 * The HTTP requests are replaced by their results: `histories` holds the
 * histories of the farm's nodes in directory order.
 */
module CsvReport {

  import opened Text
  import opened Calendar
  import opened FixedPoint
  import opened Months
  import opened Receipts
  import opened Lists
  import XlsxReport

  /**
   * One row as handed to the CSV writer: the node id, the texts of the
   * reward and of the uptimes, the nominal period (a float) and the hash.
   */
  datatype Row = Row(
    nodeId: int,
    reward: string,
    period: Fixed,
    uptimeDays: string,
    uptimePercent: string,
    hash: string)

  /** The file the run writes: its name, the header line and the rows. */
  datatype CsvFile = CsvFile(filename: string, header: seq<string>, rows: seq<Row>)

  // ---------------------------------------------------------------------
  // Validating the month token

  /**
   * The module-level validation: split on '.', read the month from the first
   * field, take the second field as the year (there must be one), check its
   * length, read it, then check the month and finally the year range.
   * Fields after the second are ignored.
   */
  function ValidateMonthYear(token: string, currentYear: int): (r: Result<TargetMonth>)
    ensures r.Ok? ==> ValidTarget(r.value, currentYear) && r.value.year <= 9999
    ensures r == Err(MissingYear) <==> |Split(token, '.')| == 1 && ParseInt(token).Some?
    ensures var parts := Split(token, '.');
      r == Err(NotAnInteger) <==> (ParseInt(parts[0]).None?
        || (|parts| >= 2 && (|parts[1]| == 2 || |parts[1]| == 4) && ParseInt(parts[1]).None?))
  {
    var parts := Split(token, '.');
    match ParseInt(parts[0])
    case None => Err(NotAnInteger)
    case Some(month) =>
      if |parts| < 2 then
        assert parts == [token] by {
          assert Join(parts, '.') == parts[0];
        }
        Err(MissingYear)
      else XlsxReport.CheckYearAndMonth(month, parts[1], currentYear)
  }

  /**
   * With at least two fields the validation decides exactly as the workbook
   * report's parser does on the first two fields alone: same checks, same
   * order, same result.
   */
  lemma ValidateAsParse(token: string, currentYear: int)
    requires |Split(token, '.')| >= 2
    ensures var parts := Split(token, '.');
      ValidateMonthYear(token, currentYear) == XlsxReport.ParseMonthYear(parts[0] + "." + parts[1], currentYear)
  {
    var parts := Split(token, '.');
    var rejoined := parts[0] + "." + parts[1];
    assert Split(rejoined, '.') == [parts[0], parts[1]] by {
      SplitTwo(parts[0], parts[1], '.');
    }
  }

  /** On a token of exactly two fields the two reports agree. */
  lemma ValidateTwoFields(token: string, currentYear: int)
    requires |Split(token, '.')| == 2
    ensures ValidateMonthYear(token, currentYear) == XlsxReport.ParseMonthYear(token, currentYear)
  {
    var parts := Split(token, '.');
    ValidateAsParse(token, currentYear);
    assert Join(parts, '.') == parts[0] + "." + parts[1] by {
      assert parts[1..] == [parts[1]];
    }
  }

  // ---------------------------------------------------------------------
  // Formatting numbers

  /** The number of decimals `format_float` writes: 2 when asked for 2, otherwise 7. */
  function Decimals(precision: int): nat {
    if precision == 2 then 2 else 7
  }

  /**
   * `format_float`: `"{:.2f}"` or `"{:.7f}"` of the value, that is a '-' for
   * a negative value, then the magnitude rounded (ties to even) to the number
   * of decimals, with its integer part, a point and exactly that many digits.
   */
  function FormatFloat(x: Ratio, precision: int): (s: string)
    ensures |s| >= 1 && (s[0] == '-' <==> x.num < 0)
    ensures Spells(if x.num < 0 then s[1..] else s, Decimals(precision), RoundHalfEven(Abs(x.num) * Pow10(Decimals(precision)), x.den))
  {
    var p := Decimals(precision);
    var units := RoundHalfEven(Abs(x.num) * Pow10(p), x.den);
    NonNegativeRounding(Abs(x.num) * Pow10(p), x.den);
    var text := Render(units, p);
    RenderSpells(units, p);
    SignedSpells(text, x.num < 0, p, units);
    if x.num < 0 then "-" + text else text
  }

  lemma SignedSpells(text: string, negative: bool, p: nat, units: int)
    requires Spells(text, p, units)
    ensures var s := if negative then "-" + text else text;
      |s| >= 1 && (s[0] == '-' <==> negative) && Spells(if negative then s[1..] else s, p, units)
  {
    assert IsDigit(text[0]) by {
      assert text[0] == text[..|text| - p - 1][0];
    }
    if negative {
      assert ("-" + text)[1..] == text;
    }
  }

  /** Rounding a non-negative value gives a non-negative number. */
  lemma NonNegativeRounding(a: int, b: Positive)
    requires a >= 0
    ensures RoundHalfEven(a, b) >= 0
  {
    var r := RoundHalfEven(a, b);
    if r < 0 {
      NonzeroMultiple(r, b);
    }
  }

  // ---------------------------------------------------------------------
  // Rows

  /** The row of a kept Minting receipt. */
  function RowOf(r: MintingReceipt): (row: Row)
    ensures row.nodeId == r.kind.nodeId && row.hash == r.hash && row.period == NominalPeriodDays
  {
    Row(
      r.kind.nodeId,
      FormatFloat(RewardTft(r.kind.rewardTft), 7),
      NominalPeriodDays,
      FormatFloat(UptimeDays(r.kind.measuredUptime), 2),
      FormatFloat(UptimePercent(r.kind.measuredUptime), 2),
      r.hash)
  }

  /**
   * The filter loop of `fetch_node_minting_history`: one row per kept receipt,
   * in history order.
   */
  method FetchNodeMintingHistory(history: seq<Receipt>, target: TargetMonth, utcOffset: int)
    returns (data: seq<Row>)
    ensures data == HistoryRows(RowOf, history, target, utcOffset)
  {
    data := [];
    for i := 0 to |history|
      invariant data == HistoryRows(RowOf, history[..i], target, utcOffset)
    {
      var item := history[i];
      HistoryRowsStep(RowOf, history, i, target, utcOffset);
      if item.kind.Minting? {
        var adjusted := AdjustedDate(item.kind.periodStart, utcOffset);
        if adjusted.year == target.year && adjusted.month == target.month {
          data := data + [RowOf(item)];
        }
      }
    }
    assert history[..|history|] == history;
  }

  // ---------------------------------------------------------------------
  // The file

  /**
   * `process_farm`: the rows of every node, appended in directory order, under
   * the header, in a file named after the farm and the `MM.YYYY` label.
   */
  method ProcessFarm(farmId: string, target: TargetMonth, histories: seq<seq<Receipt>>, utcOffset: int)
    returns (file: CsvFile)
    ensures file.filename == farmId + "_farm_earnings_" + Label(target) + ".csv"
    ensures file.header == Header
    ensures file.rows == Concat(NodeRows(RowOf, histories, target, utcOffset))
  {
    var allData: seq<Row> := [];
    for n := 0 to |histories|
      invariant allData == Concat(NodeRows(RowOf, histories[..n], target, utcOffset))
    {
      var nodeData := FetchNodeMintingHistory(histories[n], target, utcOffset);
      NodeRowsStep(RowOf, histories, n, target, utcOffset);
      allData := allData + nodeData;
    }
    assert histories[..|histories|] == histories;
    var filename := farmId + "_farm_earnings_" + Label(target) + ".csv";
    return CsvFile(filename, Header, allData);
  }

  /** The run: validate the token, then write the month's file. */
  method Run(farmId: string, token: string, currentYear: int, utcOffset: int, histories: seq<seq<Receipt>>)
    returns (r: Result<CsvFile>)
    ensures ValidateMonthYear(token, currentYear).Err? ==>
      r == Err(ValidateMonthYear(token, currentYear).error)
    ensures ValidateMonthYear(token, currentYear).Ok? ==> (r.Ok?
      && r.value.filename == farmId + "_farm_earnings_" + Label(ValidateMonthYear(token, currentYear).value) + ".csv"
      && r.value.header == Header
      && r.value.rows == Concat(NodeRows(RowOf, histories, ValidateMonthYear(token, currentYear).value, utcOffset)))
  {
    var validated := ValidateMonthYear(token, currentYear);
    if validated.Err? {
      return Err(validated.error);
    }
    var file := ProcessFarm(farmId, validated.value, histories, utcOffset);
    return Ok(file);
  }

  // ---------------------------------------------------------------------
  // Properties

  /**
   * No sorting and no deduplication: the file's rows are those of the kept
   * receipts of all histories read one after the other, in directory order
   * and, within a node, in receipt order.
   */
  lemma {:induction false} RowsInDirectoryOrder(histories: seq<seq<Receipt>>, target: TargetMonth, utcOffset: int)
    ensures Concat(NodeRows(RowOf, histories, target, utcOffset)) == HistoryRows(RowOf, Concat(histories), target, utcOffset)
  {
    if histories != [] {
      var h, rest := histories[0], histories[1..];
      RowsInDirectoryOrder(rest, target, utcOffset);
      assert NodeRows(RowOf, histories, target, utcOffset) == [HistoryRows(RowOf, h, target, utcOffset)] + NodeRows(RowOf, rest, target, utcOffset);
      KeptAppend(h, Concat(rest), target, utcOffset);
      HistoryRowsAppend(RowOf, h, Concat(rest), target, utcOffset);
    }
  }

  /**
   * The CSV texts carry the same rounded numbers as the workbook's cells: the
   * reward with 7 decimals spells the integer reward, and the two uptimes spell
   * the workbook's 2-decimal values (for a non-negative measured uptime).
   */
  lemma SameNumbersAsWorkbook(r: Receipt)
    requires r.kind.Minting? && r.kind.measuredUptime >= 0 && r.kind.rewardTft >= 0
    ensures Spells(RowOf(r).reward, 7, XlsxReport.RowOf(r).reward.units)
    ensures Spells(RowOf(r).uptimeDays, 2, XlsxReport.RowOf(r).uptimeDays.units)
    ensures Spells(RowOf(r).uptimePercent, 2, XlsxReport.RowOf(r).uptimePercent.units)
  {
    var m, t := r.kind.measuredUptime, r.kind.rewardTft;
    RoundExact(t, UnitsPerTft);
    assert Pow10(7) == UnitsPerTft;
    assert XlsxReport.RowOf(r).reward.units == t;
    assert RowOf(r).reward == FormatFloat(RewardTft(t), 7);
    assert XlsxReport.RowOf(r).uptimeDays == RoundTo(UptimeDays(m), 2);
    assert RowOf(r).uptimeDays == FormatFloat(UptimeDays(m), 2);
    assert XlsxReport.RowOf(r).uptimePercent == RoundTo(UptimePercent(m), 2);
    assert RowOf(r).uptimePercent == FormatFloat(UptimePercent(m), 2);
  }

  /** A full nominal period of uptime, 2630880 seconds, is written as "30.45" days and "100.00" percent. */
  lemma FullPeriodExample()
    ensures FormatFloat(UptimeDays(2630880), 2) == "30.45"
    ensures FormatFloat(UptimePercent(2630880), 2) == "100.00"
  {
    FullPeriodDays();
    FullPeriodPercent();
  }

  lemma FullPeriodDays()
    ensures FormatFloat(UptimeDays(2630880), 2) == "30.45"
  {
    var x := UptimeDays(2630880);
    assert Pow10(2) == 100 && Decimals(2) == 2;
    var units := RoundHalfEven(x.num * 100, x.den);
    assert units == 3045 by {
      RoundExact(3045, SecondsPerDay);
      assert x.num * 100 == 3045 * SecondsPerDay;
    }
    assert FormatFloat(x, 2) == Render(units, 2) by {
      FormatNonNegative(x, 2);
    }
    RenderNominalDays();
  }

  lemma RenderNominalDays()
    ensures Render(3045, 2) == "30.45"
  {
    assert "30" + "." + "45" == "30.45";
    NominalDaysText();
    RenderExample(3045, 30, 45, "30", "45");
  }

  lemma FullPeriodPercent()
    ensures FormatFloat(UptimePercent(2630880), 2) == "100.00"
  {
    var x := UptimePercent(2630880);
    assert Pow10(2) == 100 && Decimals(2) == 2;
    var units := RoundHalfEven(x.num * 100, x.den);
    assert units == 10000 by {
      RoundExact(10000, SecondsPerDay * 3045);
      assert x.num * 100 == 10000 * (SecondsPerDay * 3045);
    }
    assert FormatFloat(x, 2) == Render(units, 2) by {
      FormatNonNegative(x, 2);
    }
    RenderHundred();
  }

  lemma RenderHundred()
    ensures Render(10000, 2) == "100.00"
  {
    assert "100" + "." + "00" == "100.00";
    HundredText();
    RenderExample(10000, 100, 0, "100", "00");
  }

  /** The text of a non-negative value is the rendering of its rounded magnitude. */
  lemma FormatNonNegative(x: Ratio, precision: int)
    requires x.num >= 0
    ensures FormatFloat(x, precision)
         == Render(RoundHalfEven(x.num * Pow10(Decimals(precision)), x.den), Decimals(precision))
  {
  }

  lemma NominalDaysText()
    ensures NatToString(30) == "30" && ZeroFill(NatToString(45), 2) == "45"
  {
    assert DigitChar(3) == '3' && DigitChar(0) == '0' && DigitChar(4) == '4' && DigitChar(5) == '5';
    assert NatToString(30) == NatToString(3) + "0";
    assert NatToString(45) == NatToString(4) + "5";
  }

  lemma HundredText()
    ensures NatToString(100) == "100" && ZeroFill(NatToString(0), 2) == "00"
  {
    assert DigitChar(1) == '1' && DigitChar(0) == '0';
    assert NatToString(1) == "1";
    assert NatToString(10) == NatToString(1) + "0";
    assert NatToString(100) == NatToString(10) + "0";
    assert NatToString(0) == "0";
    assert Zeros(1) == "0";
  }

  lemma RenderExample(units: nat, whole: nat, frac: nat, wholeText: string, fracText: string)
    requires units == whole * 100 + frac && frac < 100
    requires wholeText == NatToString(whole) && fracText == ZeroFill(NatToString(frac), 2)
    ensures Render(units, 2) == wholeText + "." + fracText
  {
    assert Pow10(2) == 100;
    assert units / 100 == whole;
    assert units % 100 == frac;
  }
}
