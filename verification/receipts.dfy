/**
 * Minting receipts and the period filter that both report scripts apply to
 * a node's receipt history: keep the Minting receipts whose period start,
 * read as a local calendar date and moved two days later, falls in the
 * requested month.
 */
module Receipts {

  import opened Calendar
  import opened FixedPoint
  import opened Months
  import opened Lists

  /** The payload of one receipt of a node's minting history, by kind. */
  datatype ReceiptKind =
    | Minting(nodeId: int, periodStart: int, measuredUptime: int, rewardTft: int)
    | Other

  /** One entry of the history: its hash and its receipt. */
  datatype Receipt = Receipt(hash: string, kind: ReceiptKind)

  /** A receipt of the Minting kind: the only kind a report row is made from. */
  type MintingReceipt = r: Receipt | r.kind.Minting? witness Receipt([], Minting(0, 0, 0, 0))

  /** Period starts are reported up to this many days before the month they belong to. */
  const PeriodSkewDays := 2

  /** Reward amounts are integers in units of 10^-7 TFT. */
  const UnitsPerTft := 10000000

  /** The nominal period length, 30.45 days, written into every row. */
  const NominalPeriodDays := Fixed(3045, 2)

  /** The local date of the period start, moved two days later (`start + timedelta(days=2)`). */
  function AdjustedDate(periodStart: int, utcOffset: int): (d: Date)
    ensures ValidDate(d) && DaysFromCivil(d) == LocalDay(periodStart, utcOffset) + PeriodSkewDays
  {
    CivilFromDays(LocalDay(periodStart, utcOffset) + PeriodSkewDays)
  }

  /** The filter condition: a Minting receipt whose adjusted date has the target year and month. */
  predicate Kept(r: Receipt, target: TargetMonth, utcOffset: int)
    ensures Kept(r, target, utcOffset) ==> r.kind.Minting? && 1 <= target.month <= 12
  {
    && r.kind.Minting?
    && AdjustedDate(r.kind.periodStart, utcOffset).year == target.year
    && AdjustedDate(r.kind.periodStart, utcOffset).month == target.month
  }

  /** The receipts of a history that the filter keeps, in history order. */
  function KeptReceipts(rs: seq<Receipt>, target: TargetMonth, utcOffset: int): (kept: seq<Receipt>)
    ensures |kept| <= |rs|
    ensures forall i :: 0 <= i < |kept| ==> kept[i].kind.Minting?
  {
    Filter(r => Kept(r, target, utcOffset), rs)
  }

  /**
   * The rows one node's history yields for the target month: the row of each
   * kept receipt, in history order. Each report has its own row function.
   */
  function HistoryRows<R>(rowOf: MintingReceipt -> R, history: seq<Receipt>, target: TargetMonth, utcOffset: int)
    : (rows: seq<R>)
    ensures |rows| == |KeptReceipts(history, target, utcOffset)|
  {
    Map<MintingReceipt, R>(rowOf, KeptReceipts(history, target, utcOffset))
  }

  /** The row lists of several node histories, one list per node, in the same order. */
  function NodeRows<R>(rowOf: MintingReceipt -> R, histories: seq<seq<Receipt>>, target: TargetMonth, utcOffset: int)
    : (rows: seq<seq<R>>)
    ensures |rows| == |histories|
  {
    Map(h => HistoryRows(rowOf, h, target, utcOffset), histories)
  }

  /** The six column names both reports write above the rows. */
  const Header: seq<string> :=
    ["Node ID", "TFT Earned", "Total Period (Days)", "Uptime (Days)", "Uptime (%)", "Receipt Hash"]

  /** `reward.tft / 1e7`: the reward in TFT. */
  function RewardTft(rewardUnits: int): (x: Ratio)
    ensures x.num * UnitsPerTft == rewardUnits * x.den
  {
    Ratio(rewardUnits, UnitsPerTft)
  }

  /** `measured_uptime / (24 * 3600)`: the uptime in days. */
  function UptimeDays(measuredUptime: int): (x: Ratio)
    ensures x.num * SecondsPerDay == measuredUptime * x.den
  {
    Ratio(measuredUptime, SecondsPerDay)
  }

  /**
   * The uptime as a percentage of the nominal period, uptime-days / 30.45 × 100,
   * which is measured_uptime × 10^4 / (86400 × 3045).
   */
  function UptimePercent(measuredUptime: int): (x: Ratio)
    ensures var days := UptimeDays(measuredUptime);
      x.num * 3045 * days.den == days.num * 10000 * x.den
  {
    Ratio(measuredUptime * 10000, SecondsPerDay * 3045)
  }

  // ---------------------------------------------------------------------
  // Lemmas

  /** Each receipt is kept as many times as it occurs in the history if it passes the filter, else never. */
  lemma KeptMultiset(rs: seq<Receipt>, target: TargetMonth, utcOffset: int)
    ensures forall r :: (multiset(KeptReceipts(rs, target, utcOffset))[r]
      == if Kept(r, target, utcOffset) then multiset(rs)[r] else 0)
  {
    FilterMultiset(r => Kept(r, target, utcOffset), rs);
  }

  /** Kept receipts are exactly the history's receipts that pass the filter. */
  lemma KeptMembers(rs: seq<Receipt>, target: TargetMonth, utcOffset: int)
    ensures forall r :: r in KeptReceipts(rs, target, utcOffset) <==> r in rs && Kept(r, target, utcOffset)
  {
    KeptMultiset(rs, target, utcOffset);
    var kept := KeptReceipts(rs, target, utcOffset);
    forall r ensures r in kept <==> r in rs && Kept(r, target, utcOffset) {
      assert r in kept <==> multiset(kept)[r] > 0;
      assert r in rs <==> multiset(rs)[r] > 0;
    }
  }

  /** Filtering commutes with concatenation: kept receipts keep their history order. */
  lemma KeptAppend(a: seq<Receipt>, b: seq<Receipt>, target: TargetMonth, utcOffset: int)
    ensures KeptReceipts(a + b, target, utcOffset)
         == KeptReceipts(a, target, utcOffset) + KeptReceipts(b, target, utcOffset)
  {
    FilterAppend(r => Kept(r, target, utcOffset), a, b);
  }

  /** Non-Minting receipts never pass the filter, whatever the target. */
  lemma OtherNeverKept(rs: seq<Receipt>, target: TargetMonth, utcOffset: int)
    requires forall i :: 0 <= i < |rs| ==> rs[i].kind.Other?
    ensures KeptReceipts(rs, target, utcOffset) == []
  {
    FilterNone(r => Kept(r, target, utcOffset), rs);
  }

  /**
   * The filter in seconds: a Minting receipt is kept for a month exactly when
   * its local period start lies in the window that begins two days before
   * midnight of the month's first day and ends two days before midnight of the
   * next month's first day.
   */
  lemma KeptWindow(r: Receipt, target: TargetMonth, utcOffset: int)
    requires 1 <= target.month <= 12
    requires r.kind.Minting?
    ensures Kept(r, target, utcOffset) <==>
      (DaysFromCivil(Date(target.year, target.month, 1)) - PeriodSkewDays) * SecondsPerDay
        <= r.kind.periodStart + utcOffset
        < (FirstDayOfNextMonth(target.year, target.month) - PeriodSkewDays) * SecondsPerDay
  {
    var local := r.kind.periodStart + utcOffset;
    var z := LocalDay(r.kind.periodStart, utcOffset) + PeriodSkewDays;
    var first := DaysFromCivil(Date(target.year, target.month, 1));
    var next := FirstDayOfNextMonth(target.year, target.month);
    MonthWindow(z, target.year, target.month);
    assert Kept(r, target, utcOffset) <==> first <= z < next;
    FloorWindow(local, first - PeriodSkewDays, next - PeriodSkewDays);
  }

  /** floor(x / 86400) lies in [lo, hi) exactly when x lies in [lo × 86400, hi × 86400). */
  lemma FloorWindow(x: int, lo: int, hi: int)
    ensures lo <= x / SecondsPerDay < hi <==> lo * SecondsPerDay <= x < hi * SecondsPerDay
  {
    var q := x / SecondsPerDay;
    assert x == q * SecondsPerDay + x % SecondsPerDay;
    if q < lo {
      assert q * SecondsPerDay <= (lo - 1) * SecondsPerDay;
    }
    if q >= hi {
      assert hi * SecondsPerDay <= q * SecondsPerDay;
    }
    if lo <= q {
      assert lo * SecondsPerDay <= q * SecondsPerDay;
    }
    if q < hi {
      assert q * SecondsPerDay <= (hi - 1) * SecondsPerDay;
    }
  }

  /**
   * Boundary attribution for March 2023 in UTC: a period starting at or after
   * 2023-02-27 00:00:00 and before 2023-03-30 00:00:00 counts for March;
   * one a second earlier, or one at the end of that window, does not.
   */
  lemma BoundaryExample(start: int)
    ensures Kept(Receipt("h", Minting(1, start, 0, 0)), TargetMonth(3, 2023), 0)
        <==> 1677456000 <= start < 1680134400
  {
    assert DaysBeforeYear(2023) == 19358;
    assert DaysFromCivil(Date(2023, 3, 1)) == 19417;
    assert FirstDayOfNextMonth(2023, 3) == 19448;
    KeptWindow(Receipt("h", Minting(1, start, 0, 0)), TargetMonth(3, 2023), 0);
  }

  /** One more receipt adds its row at the end exactly when the filter keeps it. */
  lemma HistoryRowsStep<R>(rowOf: MintingReceipt -> R, history: seq<Receipt>, i: int, target: TargetMonth, utcOffset: int)
    requires 0 <= i < |history|
    ensures HistoryRows(rowOf, history[..i + 1], target, utcOffset) == HistoryRows(rowOf, history[..i], target, utcOffset)
      + (if Kept(history[i], target, utcOffset) then [rowOf(history[i])] else [])
  {
    assert history[..i + 1] == history[..i] + [history[i]];
    HistoryRowsAppend(rowOf, history[..i], [history[i]], target, utcOffset);
    HistoryRowsSingle(rowOf, history[i], target, utcOffset);
  }

  /** A history of one receipt yields that receipt's row exactly when the filter keeps it. */
  lemma HistoryRowsSingle<R>(rowOf: MintingReceipt -> R, x: Receipt, target: TargetMonth, utcOffset: int)
    ensures HistoryRows(rowOf, [x], target, utcOffset) == if Kept(x, target, utcOffset) then [rowOf(x)] else []
  {
    assert [x][1..] == [];
    var kept := KeptReceipts([x], target, utcOffset);
    if Kept(x, target, utcOffset) {
      assert kept == [x];
      assert Map<MintingReceipt, R>(rowOf, kept) == [rowOf(x)] + Map<MintingReceipt, R>(rowOf, []);
    } else {
      assert kept == [];
    }
  }

  /** The rows of two histories read one after the other are the rows of each, in turn. */
  lemma HistoryRowsAppend<R>(rowOf: MintingReceipt -> R, a: seq<Receipt>, b: seq<Receipt>, target: TargetMonth, utcOffset: int)
    ensures HistoryRows(rowOf, a + b, target, utcOffset)
         == HistoryRows(rowOf, a, target, utcOffset) + HistoryRows(rowOf, b, target, utcOffset)
  {
    KeptAppend(a, b, target, utcOffset);
    MapAppend<MintingReceipt, R>(rowOf, KeptReceipts(a, target, utcOffset), KeptReceipts(b, target, utcOffset));
  }

  /** One more node history adds its rows at the end of the collected rows. */
  lemma NodeRowsStep<R>(rowOf: MintingReceipt -> R, histories: seq<seq<Receipt>>, n: int, target: TargetMonth, utcOffset: int)
    requires 0 <= n < |histories|
    ensures Concat(NodeRows(rowOf, histories[..n + 1], target, utcOffset))
         == Concat(NodeRows(rowOf, histories[..n], target, utcOffset)) + HistoryRows(rowOf, histories[n], target, utcOffset)
  {
    var f := h => HistoryRows(rowOf, h, target, utcOffset);
    assert histories[..n + 1] == histories[..n] + [histories[n]];
    MapAppend(f, histories[..n], [histories[n]]);
    assert Map(f, [histories[n]]) == [HistoryRows(rowOf, histories[n], target, utcOffset)];
    ConcatAppend(NodeRows(rowOf, histories[..n], target, utcOffset), HistoryRows(rowOf, histories[n], target, utcOffset));
  }
}
