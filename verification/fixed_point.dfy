/**
 * Exact stand-ins for the floating-point values of the reports.
 *
 * A quantity the scripts compute in floating point (`tft / 1e7`,
 * `measured_uptime / 86400`, ...) is modelled by the exact rational number
 * it approximates. Python's `round(x, n)` and `"{:.nf}".format(x)` both round
 * to n decimals with ties to even; here they round that exact rational.
 */
module FixedPoint {

  import opened Text

  type Positive = n: int | n > 0 witness 1

  /** The exact rational number num / den. */
  datatype Ratio = Ratio(num: int, den: Positive)

  /** The decimal number units × 10^-scale. */
  datatype Fixed = Fixed(units: int, scale: nat)

  function Abs(x: int): nat {
    if x < 0 then -x else x
  }

  /** a / b rounded to the nearest integer, ties going to the even neighbour. */
  function RoundHalfEven(a: int, b: Positive): (r: int)
    ensures 2 * Abs(r * b - a) <= b
    ensures 2 * Abs(r * b - a) == b ==> r % 2 == 0
  {
    var q, rem := a / b, a % b;
    assert q * b == a - rem;
    assert (q + 1) * b == a - rem + b;
    if 2 * rem < b then q
    else if 2 * rem > b then q + 1
    else if q % 2 == 0 then q else q + 1
  }

  /** `round(x, p)`: the p-decimal number nearest to x, ties to even. */
  function RoundTo(x: Ratio, p: nat): (f: Fixed)
    ensures f.scale == p
    ensures 2 * Abs(f.units * x.den - x.num * Pow10(p)) <= x.den
  {
    Fixed(RoundHalfEven(x.num * Pow10(p), x.den), p)
  }

  function Zeros(n: nat): (z: string)
    ensures |z| == n && AllDigits(z) && DigitsValue(z) == 0
  {
    if n == 0 then ""
    else
      var z := Zeros(n - 1) + "0";
      assert z[..|z| - 1] == Zeros(n - 1);
      z
  }

  /** Left-pads a digit string with zeros up to width w. */
  function ZeroFill(t: string, w: nat): (s: string)
    requires AllDigits(t)
    ensures |s| == if |t| < w then w else |t|
    ensures AllDigits(s) && DigitsValue(s) == DigitsValue(t)
  {
    if |t| < w then
      DigitsValueAppend(Zeros(w - |t|), t);
      Zeros(w - |t|) + t
    else t
  }

  /**
   * The text is a decimal with p fraction digits (p >= 1) whose digits spell
   * units × 10^-p, and whose integer part has no leading zero (it is "0" or
   * starts with a non-zero digit).
   */
  predicate Spells(s: string, p: nat, units: int) {
    && |s| >= p + 2 && s[|s| - p - 1] == '.'
    && AllDigits(s[..|s| - p - 1]) && AllDigits(s[|s| - p..])
    && DigitsValue(s[..|s| - p - 1]) * Pow10(p) + DigitsValue(s[|s| - p..]) == units
    && (s[0] == '0' ==> |s| == p + 2)
  }

  /**
   * The text `"{:.pf}"` gives for a non-negative decimal of p places: the
   * integer part, then (for p >= 1) a point and exactly p fraction digits,
   * which together spell units.
   */
  function Render(units: nat, p: nat): (s: string)
    ensures p == 0 ==> AllDigits(s) && DigitsValue(s) == units
    ensures p >= 1 ==> |s| >= p + 2 && s[|s| - p - 1] == '.'
    ensures p >= 1 ==> AllDigits(s[..|s| - p - 1]) && AllDigits(s[|s| - p..])
    ensures p >= 1 ==> DigitsValue(s[..|s| - p - 1]) == units / Pow10(p)
    ensures p >= 1 ==> DigitsValue(s[|s| - p..]) == units % Pow10(p)
    ensures p >= 1 ==> (s[0] == '0' ==> |s| == p + 2)
    ensures p == 0 ==> |s| >= 1 && (s[0] == '0' ==> |s| == 1)
  {
    if p == 0 then NatToString(units)
    else
      var big := Pow10(p);
      DivMod(units, big);
      var q, r := units / big, units % big;
      var whole := NatToString(q);
      FractionDigits(r, p);
      var frac := ZeroFill(NatToString(r), p);
      PointSplit(whole, frac);
      whole + "." + frac
  }

  /** For p >= 1, `Render` is the canonical text that spells units with p places. */
  lemma RenderSpells(units: nat, p: nat)
    requires p >= 1
    ensures Spells(Render(units, p), p, units)
  {
    DivMod(units, Pow10(p));
  }

  lemma FractionDigits(r: nat, p: nat)
    requires p >= 1 && r < Pow10(p)
    ensures |ZeroFill(NatToString(r), p)| == p
  {
    NatToStringLength(r, p);
  }

  lemma DivMod(u: nat, d: Positive)
    ensures u / d >= 0 && (u / d) * d + u % d == u && 0 <= u % d < d
  {
  }

  lemma PointSplit(whole: string, frac: string)
    ensures var s := whole + "." + frac;
      s[..|s| - |frac| - 1] == whole && s[|s| - |frac|..] == frac && s[|s| - |frac| - 1] == '.'
  {
  }

  // ---------------------------------------------------------------------
  // Lemmas

  /** A non-zero multiple of b is at least b away from zero. */
  lemma NonzeroMultiple(d: int, b: Positive)
    ensures d != 0 ==> Abs(d * b) >= b
  {
    if d > 0 {
      PositiveMultiple(d, b);
    } else if d < 0 {
      PositiveMultiple(-d, b);
      assert d * b == -((-d) * b);
    }
  }

  lemma {:induction false} PositiveMultiple(d: int, b: Positive)
    requires d >= 1
    ensures d * b >= b
  {
    if d > 1 {
      PositiveMultiple(d - 1, b);
      assert d * b == (d - 1) * b + b;
    }
  }

  /** Rounding is exact on a value that already has p decimals. */
  lemma RoundExact(k: int, b: Positive)
    ensures RoundHalfEven(k * b, b) == k
  {
    var r := RoundHalfEven(k * b, b);
    assert r * b - k * b == (r - k) * b;
    NonzeroMultiple(r - k, b);
  }

  /** An integer strictly closer than half a unit to a / b is the rounded value. */
  lemma RoundUnique(a: int, b: Positive, r: int)
    requires 2 * Abs(r * b - a) < b
    ensures RoundHalfEven(a, b) == r
  {
    HalfUnitUnique(RoundHalfEven(a, b), r, a, b);
  }

  /** Two integers within half a unit of a / b, one of them strictly, are equal. */
  lemma HalfUnitUnique(x: int, y: int, a: int, b: Positive)
    requires 2 * Abs(x * b - a) <= b && 2 * Abs(y * b - a) < b
    ensures x == y
  {
    var xb, yb := x * b, y * b;
    assert (x - y) * b == xb - yb;
    NonzeroMultiple(x - y, b);
  }

  /** At most one text spells given units with p places: the rendering is fixed character by character. */
  lemma SpellsUnique(s: string, t: string, p: nat, units: int)
    requires Spells(s, p, units) && Spells(t, p, units)
    ensures s == t
  {
    var sWhole, sFrac := s[..|s| - p - 1], s[|s| - p..];
    var tWhole, tFrac := t[..|t| - p - 1], t[|t| - p..];
    assert DigitsValue(sWhole) == DigitsValue(tWhole) && DigitsValue(sFrac) == DigitsValue(tFrac) by {
      DigitsValueBound(sFrac);
      DigitsValueBound(tFrac);
      QuotientUnique(DigitsValue(sWhole), DigitsValue(sFrac), DigitsValue(tWhole), DigitsValue(tFrac), Pow10(p));
    }
    assert sWhole == tWhole by {
      assert sWhole[0] == s[0] && tWhole[0] == t[0];
      CanonicalDigits(sWhole);
      CanonicalDigits(tWhole);
    }
    DigitsInjective(sFrac, tFrac);
    Reassemble(s, p);
    Reassemble(t, p);
  }

  /** A text with a point p places from its end is its integer part, the point and its fraction. */
  lemma Reassemble(s: string, p: nat)
    requires |s| >= p + 1 && s[|s| - p - 1] == '.'
    ensures s == s[..|s| - p - 1] + "." + s[|s| - p..]
  {
  }

  /** Quotient and remainder by d are unique. */
  lemma QuotientUnique(q1: int, r1: int, q2: int, r2: int, d: Positive)
    requires 0 <= r1 < d && 0 <= r2 < d && q1 * d + r1 == q2 * d + r2
    ensures q1 == q2 && r1 == r2
  {
    var m1, m2 := q1 * d, q2 * d;
    assert (q1 - q2) * d == m1 - m2;
    NonzeroMultiple(q1 - q2, d);
  }
}
