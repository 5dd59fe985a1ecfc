/**
 * The few string operations of Python that the two report scripts rely on:
 * `str.split` on a one-character separator, `int()` on a string, `str()` on
 * an integer and the `{:02d}` format. Strings are sequences of characters.
 */
module Text {

  datatype Option<T> = None | Some(value: T)

  predicate IsDigit(c: char) {
    '0' <= c <= '9'
  }

  predicate AllDigits(s: string) {
    forall i :: 0 <= i < |s| ==> IsDigit(s[i])
  }

  function DigitValue(c: char): nat
    requires IsDigit(c)
  {
    (c as int) - ('0' as int)
  }

  function DigitChar(d: nat): (c: char)
    requires d < 10
    ensures IsDigit(c) && DigitValue(c) == d
  {
    (('0' as int) + d) as char
  }

  /** The value of a string of decimal digits, most significant digit first. */
  function DigitsValue(s: string): nat
    requires AllDigits(s)
  {
    if s == [] then 0 else DigitsValue(s[..|s| - 1]) * 10 + DigitValue(s[|s| - 1])
  }

  function Pow10(n: nat): (p: nat)
    ensures p >= 1
  {
    if n == 0 then 1 else 10 * Pow10(n - 1)
  }

  /** `str(n)` for a natural number: decimal digits without leading zeros. */
  function NatToString(n: nat): (s: string)
    ensures 1 <= |s| && AllDigits(s)
    ensures DigitsValue(s) == n
    ensures s[0] == '0' ==> n == 0
    ensures s[0] == '0' ==> s == "0"
  {
    if n < 10 then [DigitChar(n)]
    else
      var prefix := NatToString(n / 10);
      var s := prefix + [DigitChar(n % 10)];
      assert s[..|s| - 1] == prefix;
      s
  }

  /** `str(i)` for any integer. */
  function IntToString(i: int): (s: string)
    ensures 1 <= |s|
    ensures s[0] == '-' <==> i < 0
  {
    if i < 0 then "-" + NatToString(-i) else NatToString(i)
  }

  /** `f"{n:02d}"`: at least two characters, zero-filled after the sign. */
  function Pad2(n: int): (s: string)
    ensures 2 <= |s|
    ensures s[0] == '-' <==> n < 0
  {
    if n < 0 then "-" + NatToString(-n)
    else if n < 10 then "0" + NatToString(n)
    else NatToString(n)
  }

  /**
   * `int(s)` on a string: an optional sign followed by one or more decimal
   * digits; anything else raises ValueError, modelled as None.
   */
  function ParseInt(s: string): (r: Option<int>)
    ensures r.Some? ==> 1 <= |s| && '.' !in s
    ensures r.Some? && r.value < 0 ==> s[0] == '-'
  {
    if |s| >= 2 && (s[0] == '+' || s[0] == '-') && AllDigits(s[1..]) then
      var v: int := DigitsValue(s[1..]);
      Some(if s[0] == '-' then -v else v)
    else if |s| >= 1 && AllDigits(s) then
      Some(DigitsValue(s))
    else
      None
  }

  /** Joins the parts with the separator between them (the inverse of Split). */
  function Join(parts: seq<string>, sep: char): string
    requires |parts| >= 1
  {
    if |parts| == 1 then parts[0] else parts[0] + [sep] + Join(parts[1..], sep)
  }

  /** `s.split(sep)` for a one-character separator. */
  function Split(s: string, sep: char): (parts: seq<string>)
    ensures |parts| >= 1
    ensures forall i :: 0 <= i < |parts| ==> sep !in parts[i]
    ensures Join(parts, sep) == s
  {
    if s == [] then [""]
    else
      var rest := Split(s[1..], sep);
      if s[0] == sep then
        assert Join([""] + rest, sep) == [sep] + Join(rest, sep) by {
          assert ([""] + rest)[1..] == rest;
        }
        [""] + rest
      else
        var parts := [[s[0]] + rest[0]] + rest[1..];
        assert sep !in parts[0];
        assert Join(parts, sep) == s by {
          if |rest| == 1 {
            assert parts == [[s[0]] + rest[0]];
          } else {
            assert parts[1..] == rest[1..];
            assert Join(rest, sep) == rest[0] + [sep] + Join(rest[1..], sep);
          }
        }
        parts
  }

  // ---------------------------------------------------------------------
  // Lemmas

  /** A string without the separator splits into itself alone. */
  lemma {:induction false} SplitNoSeparator(s: string, sep: char)
    requires sep !in s
    ensures Split(s, sep) == [s]
  {
    if s != [] {
      SplitNoSeparator(s[1..], sep);
      assert [s[0]] + s[1..] == s;
    }
  }

  /** Two separator-free strings joined by the separator split back into the two. */
  lemma {:induction false} SplitTwo(a: string, b: string, sep: char)
    requires sep !in a && sep !in b
    ensures Split(a + [sep] + b, sep) == [a, b]
  {
    if a == [] {
      assert a + [sep] + b == [sep] + b;
      assert ([sep] + b)[1..] == b;
      SplitNoSeparator(b, sep);
    } else {
      SplitTwo(a[1..], b, sep);
      assert (a + [sep] + b)[1..] == a[1..] + [sep] + b;
      assert [a[0]] + a[1..] == a;
    }
  }

  lemma {:induction false} DigitsValueAppend(a: string, b: string)
    requires AllDigits(a) && AllDigits(b)
    ensures AllDigits(a + b)
    ensures DigitsValue(a + b) == DigitsValue(a) * Pow10(|b|) + DigitsValue(b)
  {
    if b == [] {
      assert a + b == a;
    } else {
      var b' := b[..|b| - 1];
      DigitsValueAppend(a, b');
      assert (a + b)[..|a + b| - 1] == a + b';
      assert b[..|b| - 1] == b';
      assert (a + b)[|a + b| - 1] == b[|b| - 1];
      ShiftDigit(DigitsValue(a), Pow10(|b'|), DigitsValue(b'), DigitValue(b[|b| - 1]));
    }
  }

  lemma ShiftDigit(x: int, p: int, y: int, d: int)
    ensures (x * p + y) * 10 + d == x * (10 * p) + (y * 10 + d)
  {
  }

  /** `int(str(n)) == n`. */
  lemma ParseNatToString(n: nat)
    ensures ParseInt(NatToString(n)) == Some(n)
  {
    var s := NatToString(n);
    assert !(|s| >= 2 && (s[0] == '+' || s[0] == '-'));
  }

  /** `int(str(i)) == i` for every integer, negative ones included. */
  lemma ParseIntToString(i: int)
    ensures ParseInt(IntToString(i)) == Some(i)
  {
    if i < 0 {
      var s := IntToString(i);
      assert s[1..] == NatToString(-i);
    } else {
      ParseNatToString(i);
    }
  }

  /** `int(f"{n:02d}") == n`, and the text is exactly two characters below 100. */
  lemma ParsePad2(n: nat)
    ensures ParseInt(Pad2(n)) == Some(n)
    ensures n < 100 ==> |Pad2(n)| == 2
  {
    if n < 10 {
      var s := Pad2(n);
      assert AllDigits(s);
      DigitsValueAppend("0", NatToString(n));
      assert DigitsValue("0") == 0 by {
        assert "0"[..0] == [];
      }
      assert !(|s| >= 2 && (s[0] == '+' || s[0] == '-'));
    } else {
      ParseNatToString(n);
      if n < 100 {
        NatToStringLength(n, 2);
      }
    }
  }

  /** A number below 10^k has at most k digits (and 4-digit numbers exactly 4). */
  lemma {:induction false} NatToStringLength(n: nat, k: nat)
    requires 1 <= k && n < Pow10(k)
    ensures |NatToString(n)| <= k
    ensures k == 4 && n >= 1000 ==> |NatToString(n)| == 4
  {
    if n >= 10 {
      assert Pow10(1) == 10;
      assert k >= 2;
      assert n / 10 < Pow10(k - 1);
      NatToStringLength(n / 10, k - 1);
      if k == 4 && n >= 1000 {
        NatToStringLength(n / 10, 3);
        assert n / 10 >= 100;
        assert n / 100 >= 10;
        assert |NatToString(n / 100)| >= 2;
        assert |NatToString(n / 10)| >= 3;
      }
    }
  }

  /** A string of k digits spells a number below 10^k. */
  lemma {:induction false} DigitsValueBound(s: string)
    requires AllDigits(s)
    ensures DigitsValue(s) < Pow10(|s|)
  {
    if s != [] {
      DigitsValueBound(s[..|s| - 1]);
    }
  }

  /** Two digit strings of the same length that spell the same number are the same string. */
  lemma {:induction false} DigitsInjective(a: string, b: string)
    requires AllDigits(a) && AllDigits(b) && |a| == |b|
    requires DigitsValue(a) == DigitsValue(b)
    ensures a == b
  {
    if a != [] {
      var n := |a|;
      var x, y := DigitsValue(a[..n - 1]), DigitsValue(b[..n - 1]);
      var da, db := DigitValue(a[n - 1]), DigitValue(b[n - 1]);
      assert DigitsValue(a) == x * 10 + da && DigitsValue(b) == y * 10 + db;
      LastDigit(x, da, y, db);
      DigitsInjective(a[..n - 1], b[..n - 1]);
      assert a == a[..n - 1] + [a[n - 1]] && b == b[..n - 1] + [b[n - 1]];
    }
  }

  /** The last decimal digit and the number before it are unique. */
  lemma LastDigit(x: nat, d: nat, y: nat, e: nat)
    requires d < 10 && e < 10 && x * 10 + d == y * 10 + e
    ensures x == y && d == e
  {
  }

  /** A digit string that is "0" or starts with a non-zero digit is `str` of its value. */
  lemma {:induction false} CanonicalDigits(s: string)
    requires |s| >= 1 && AllDigits(s) && (s[0] == '0' ==> |s| == 1)
    ensures s == NatToString(DigitsValue(s))
  {
    var n := |s|;
    if n == 1 {
      assert DigitsValue(s) == DigitValue(s[0]) by {
        assert s[..0] == [];
      }
    } else {
      var prefix := s[..n - 1];
      assert prefix[0] == s[0];
      CanonicalDigits(prefix);
      var v := DigitsValue(prefix);
      assert NatToString(0)[0] == '0';
      assert v != 0;
      assert DigitsValue(s) / 10 == v && DigitsValue(s) % 10 == DigitValue(s[n - 1]);
      assert s == prefix + [s[n - 1]];
    }
  }

  /** `int()` of a k-character string lies strictly between -10^k and 10^k. */
  lemma ParseIntBound(s: string)
    ensures ParseInt(s).Some? ==> var p: int := Pow10(|s|); -p < ParseInt(s).value < p
  {
    if |s| >= 2 && (s[0] == '+' || s[0] == '-') && AllDigits(s[1..]) {
      DigitsValueBound(s[1..]);
    } else if |s| >= 1 && AllDigits(s) {
      DigitsValueBound(s);
    }
  }
}
