/** Conversions between integers and decimal strings as the handlers use them:
    `String(n)` of an integer, and `Number(s)` applied to the pieces of a date
    key, which are always empty or made of ASCII digits. */
module JsNumber {
  import opened Wrappers
  import opened JsString

  predicate IsDigit(c: char) {
    '0' <= c <= '9'
  }

  predicate AllDigits(s: string) {
    forall i :: 0 <= i < |s| ==> IsDigit(s[i])
  }

  function DigitChar(n: int): (c: char)
    requires 0 <= n <= 9
    ensures IsDigit(c)
  {
    ('0' as int + n) as char
  }

  function DigitValue(c: char): (n: int)
    requires IsDigit(c)
    ensures 0 <= n <= 9 && DigitChar(n) == c
  {
    c as int - '0' as int
  }

  /** The value of a string of decimal digits, most significant first. */
  function DecimalValue(s: string): nat
    requires AllDigits(s)
  {
    if s == [] then 0 else 10 * DecimalValue(s[..|s| - 1]) + DigitValue(s[|s| - 1])
  }

  /** `String(n)` for a non-negative integer: its shortest decimal numeral. */
  function NatToDecimal(n: nat): (s: string)
    ensures 1 <= |s| && AllDigits(s)
    ensures DecimalValue(s) == n
    ensures s[0] == '0' ==> n == 0
  {
    if n < 10 then [DigitChar(n)]
    else
      var s := NatToDecimal(n / 10) + [DigitChar(n % 10)];
      assert s[..|s| - 1] == NatToDecimal(n / 10);
      s
  }

  /** `String(i)` for an integer. */
  function IntToString(i: int): string {
    if i < 0 then "-" + NatToDecimal(-i) else NatToDecimal(i)
  }

  /** `Number(s)` for a string that is empty or all digits (the empty string
      reads as 0); anything else is NaN, written None. */
  function ToNumber(s: string): (r: Option<int>)
    ensures r.Some? <==> AllDigits(s)
  {
    if AllDigits(s) then Some(DecimalValue(s)) else None
  }

  /** `String(n).padStart(2, '0')`. */
  function Pad2(n: nat): string {
    PadStart(NatToDecimal(n), 2, '0')
  }

  function Pow10(k: nat): nat {
    if k == 0 then 1 else 10 * Pow10(k - 1)
  }

  /** The numeral of `n` has `k` digits exactly when `n` has `k` decimal places. */
  lemma {:induction false} NatToDecimalLength(n: nat, k: nat)
    requires 1 <= k
    requires (if k == 1 then 0 else Pow10(k - 1)) <= n < Pow10(k)
    ensures |NatToDecimal(n)| == k
  {
    if k > 1 {
      NatToDecimalLength(n / 10, k - 1);
    } else {
      assert n < 10;
    }
  }

  /** A leading zero does not change a numeral's value. */
  lemma {:induction false} LeadingZero(s: string)
    requires AllDigits(s)
    ensures AllDigits(['0'] + s) && DecimalValue(['0'] + s) == DecimalValue(s)
  {
    if s != [] {
      var z := ['0'] + s;
      assert z[..|z| - 1] == ['0'] + s[..|s| - 1];
      LeadingZero(s[..|s| - 1]);
    }
  }

  lemma {:induction false} ZeroPadding(s: string, width: nat)
    requires AllDigits(s)
    ensures AllDigits(PadStart(s, width, '0'))
    ensures DecimalValue(PadStart(s, width, '0')) == DecimalValue(s)
    decreases width - |s|
  {
    if |s| < width {
      LeadingZero(s);
      ZeroPadding(['0'] + s, width);
    }
  }

  /** Two-digit padding of a number below 100 is a two-digit numeral of it. */
  lemma Pad2Numeral(n: nat)
    requires n < 100
    ensures |Pad2(n)| == 2 && AllDigits(Pad2(n)) && DecimalValue(Pad2(n)) == n
  {
    if n < 10 {
      NatToDecimalLength(n, 1);
    } else {
      NatToDecimalLength(n, 2);
    }
    ZeroPadding(NatToDecimal(n), 2);
  }

  /** Numerals of equal length are equal exactly when their values are. */
  lemma {:induction false} DecimalValueInjective(s: string, t: string)
    requires AllDigits(s) && AllDigits(t) && |s| == |t|
    requires DecimalValue(s) == DecimalValue(t)
    ensures s == t
  {
    if s != [] {
      var n := |s| - 1;
      assert DigitValue(s[n]) == DigitValue(t[n]);
      DecimalValueInjective(s[..n], t[..n]);
      assert s == s[..n] + [s[n]] && t == t[..n] + [t[n]];
    }
  }

  /** For numerals of equal length, string order is numeric order. */
  lemma {:induction false} LexLeDigits(s: string, t: string)
    requires AllDigits(s) && AllDigits(t) && |s| == |t|
    ensures LexLe(s, t) <==> DecimalValue(s) <= DecimalValue(t)
  {
    if s != [] {
      var n := |s| - 1;
      LexLeDigits(s[..n], t[..n]);
      assert s == s[..n] + [s[n]] && t == t[..n] + [t[n]];
      LexLeConcat(s[..n], [s[n]], t[..n], [t[n]]);
      if DecimalValue(s[..n]) == DecimalValue(t[..n]) {
        DecimalValueInjective(s[..n], t[..n]);
      }
      assert LexLe([s[n]], [t[n]]) <==> DigitValue(s[n]) <= DigitValue(t[n]);
    }
  }

  /** ... and strict string order is strict numeric order. */
  lemma LexLtDigits(s: string, t: string)
    requires AllDigits(s) && AllDigits(t) && |s| == |t|
    ensures LexLt(s, t) <==> DecimalValue(s) < DecimalValue(t)
  {
    LexLeDigits(s, t);
    if DecimalValue(s) == DecimalValue(t) {
      DecimalValueInjective(s, t);
    }
  }
}
