/**
 * Target months, the errors of month/year validation, and the `MM.YYYY`
 * labels that name a month in sheet titles and file names.
 */
module Months {

  import opened Text
  import opened Lists

  /** A requested calendar month (month 1..12 once validated). */
  datatype TargetMonth = TargetMonth(month: int, year: int)

  /** Why a month/year token, or a range of them, was refused. */
  datatype DateError =
    | DateFormat       // the token does not split on '.' into exactly two parts
    | NotAnInteger     // `int()` refused the month or the year text
    | YearFormat       // the year text is neither 2 nor 4 characters long
    | InvalidMonth     // the month is outside 1..12
    | InvalidYear      // the year is outside 2015..current year
    | MissingYear      // no '.' at all, so there is no second field (IndexError)
    | RangeFormat      // a range token with more than one '-' (unpacking fails)
    | EmptyRange       // a reversed range leaves no month to name the output after

  datatype Result<T> = Ok(value: T) | Err(error: DateError)

  const FirstYear := 2015

  /** The invariant of a validated target month. */
  predicate ValidTarget(t: TargetMonth, currentYear: int) {
    1 <= t.month <= 12 && FirstYear <= t.year <= currentYear
  }

  /** Months counted from January of year 0: consecutive months have consecutive indexes. */
  function MonthIndex(t: TargetMonth): int {
    t.year * 12 + t.month - 1
  }

  /** The month with a given index. */
  function MonthAt(k: int): (t: TargetMonth)
    ensures 1 <= t.month <= 12
    ensures MonthIndex(t) == k
  {
    TargetMonth(k % 12 + 1, k / 12)
  }

  /** `f"{month:02d}.{year}"`. */
  function Label(t: TargetMonth): string {
    Pad2(t.month) + "." + IntToString(t.year)
  }

  /** How many months an inclusive range from first to last holds (none when reversed). */
  function RangeLength(first: TargetMonth, last: TargetMonth): nat {
    if MonthIndex(first) <= MonthIndex(last) then MonthIndex(last) - MonthIndex(first) + 1 else 0
  }

  /** The i-th month of the range starting at first. */
  function RangeMonth(first: TargetMonth, i: int): TargetMonth {
    MonthAt(MonthIndex(first) + i)
  }

  /** The labels of the first n months of the range starting at first. */
  function RangeLabels(first: TargetMonth, n: nat): (labels: seq<string>)
    ensures |labels| == n
  {
    Tabulate(i => LabelAt(first, i), n)
  }

  /** The label of the i-th month of the range starting at first. */
  function LabelAt(first: TargetMonth, i: nat): string {
    Label(RangeMonth(first, i))
  }

  // ---------------------------------------------------------------------
  // Lemmas

  /** One more month adds its label at the end. */
  lemma RangeLabelsStep(first: TargetMonth, n: nat)
    ensures RangeLabels(first, n + 1) == RangeLabels(first, n) + [Label(RangeMonth(first, n))]
  {
    assert RangeLabels(first, n + 1) == RangeLabels(first, n) + [LabelAt(first, n)];
  }

  /** Entry i of the labels is the label of the i-th month of the range. */
  lemma RangeLabelsIndex(first: TargetMonth, n: nat)
    ensures forall i :: 0 <= i < n ==> RangeLabels(first, n)[i] == Label(RangeMonth(first, i))
  {
    TabulateIndex(i => LabelAt(first, i), n);
  }

  /** The month n places after first is the month whose index is n more. */
  lemma RangeMonthAt(first: TargetMonth, n: int, t: TargetMonth)
    requires 1 <= t.month <= 12 && MonthIndex(t) == MonthIndex(first) + n
    ensures RangeMonth(first, n) == t
  {
    MonthAtIndex(t);
  }

  /** A month in 1..12 is recovered from its index. */
  lemma MonthAtIndex(t: TargetMonth)
    requires 1 <= t.month <= 12
    ensures MonthAt(MonthIndex(t)) == t
  {
    var k := MonthIndex(t);
    assert k == t.year * 12 + (t.month - 1);
    assert k / 12 == t.year && k % 12 == t.month - 1;
  }

  /** Comparing year first, then month, is comparing month indexes. */
  lemma NotAfter(t: TargetMonth, u: TargetMonth)
    requires 1 <= t.month <= 12 && 1 <= u.month <= 12
    ensures (t.year < u.year || (t.year == u.year && t.month <= u.month)) <==> MonthIndex(t) <= MonthIndex(u)
  {
    if t.year < u.year {
      assert t.year * 12 + 12 <= u.year * 12;
    } else if t.year > u.year {
      assert u.year * 12 + 12 <= t.year * 12;
    }
  }

  /**
   * The months of a range: each in 1..12, strictly ascending, the first one
   * `first`, the last one `last`, and no month in between left out.
   */
  lemma RangeShape(first: TargetMonth, last: TargetMonth)
    requires 1 <= first.month <= 12 && 1 <= last.month <= 12
    ensures forall i :: 0 <= i < RangeLength(first, last) ==> 1 <= RangeMonth(first, i).month <= 12
    ensures forall i, j :: 0 <= i < j < RangeLength(first, last) ==>
      MonthIndex(RangeMonth(first, i)) < MonthIndex(RangeMonth(first, j))
    ensures RangeLength(first, last) > 0 ==>
      RangeMonth(first, 0) == first && RangeMonth(first, RangeLength(first, last) - 1) == last
    ensures forall t: TargetMonth :: 1 <= t.month <= 12 && MonthIndex(first) <= MonthIndex(t) <= MonthIndex(last) ==>
      exists i :: 0 <= i < RangeLength(first, last) && RangeMonth(first, i) == t
  {
    MonthAtIndex(first);
    MonthAtIndex(last);
    forall t: TargetMonth | 1 <= t.month <= 12 && MonthIndex(first) <= MonthIndex(t) <= MonthIndex(last)
      ensures exists i :: 0 <= i < RangeLength(first, last) && RangeMonth(first, i) == t
    {
      MonthAtIndex(t);
      var i := MonthIndex(t) - MonthIndex(first);
      assert RangeMonth(first, i) == t;
    }
  }

  /** Every month of a range lies between its endpoints, so it is valid when they are. */
  lemma RangeMonthValid(first: TargetMonth, last: TargetMonth, i: int, currentYear: int)
    requires ValidTarget(first, currentYear) && ValidTarget(last, currentYear)
    requires 0 <= i < RangeLength(first, last)
    ensures ValidTarget(RangeMonth(first, i), currentYear)
    ensures first.year <= RangeMonth(first, i).year <= last.year
  {
    var t := RangeMonth(first, i);
    assert MonthIndex(first) <= MonthIndex(t) <= MonthIndex(last);
  }

  /** `01.23-03.23` covers January to March 2023; `03.23-01.23` covers no month. */
  lemma RangeExample()
    ensures RangeLength(TargetMonth(1, 2023), TargetMonth(3, 2023)) == 3
    ensures Label(RangeMonth(TargetMonth(1, 2023), 0)) == "01.2023"
    ensures Label(RangeMonth(TargetMonth(1, 2023), 1)) == "02.2023"
    ensures Label(RangeMonth(TargetMonth(1, 2023), 2)) == "03.2023"
    ensures RangeLength(TargetMonth(3, 2023), TargetMonth(1, 2023)) == 0
  {
    MonthAtIndex(TargetMonth(1, 2023));
    MonthAtIndex(TargetMonth(2, 2023));
    MonthAtIndex(TargetMonth(3, 2023));
    LabelIn2023(1);
    LabelIn2023(2);
    LabelIn2023(3);
  }

  lemma LabelIn2023(month: int)
    requires 1 <= month <= 9
    ensures Label(TargetMonth(month, 2023)) == ['0', DigitChar(month), '.', '2', '0', '2', '3']
  {
    Year2023();
    assert Pad2(month) == ['0', DigitChar(month)];
  }

  lemma Year2023()
    ensures IntToString(2023) == "2023"
  {
    assert DigitChar(2) == '2' && DigitChar(0) == '0' && DigitChar(3) == '3';
    assert NatToString(2) == "2";
    assert NatToString(20) == NatToString(2) + "0";
    assert NatToString(202) == NatToString(20) + "2";
    assert NatToString(2023) == NatToString(202) + "3";
  }
}
