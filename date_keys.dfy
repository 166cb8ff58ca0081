/** Day keys: calendar dates written `YYYY-MM-DD`, the ISO 8601 complete
    calendar date in extended format (ISO 8601:2004, section 4.1.2.2), as both
    record kinds store them. The handlers build them as
    `${year}-${String(month).padStart(2, '0')}-${String(day).padStart(2, '0')}`
    and compare them as strings; this module proves that, for four-digit
    years, string order on keys is calendar order. */
module DateKeys {
  import opened EcmaTime
  import opened JsString
  import opened JsNumber

  /** `${y}-${mm}-${dd}`: the year unpadded, month and day padded to two digits. */
  function FormatKey(y: int, m: nat, d: nat): string {
    IntToString(y) + "-" + Pad2(m) + "-" + Pad2(d)
  }

  /** The key of a civil date. */
  function DateKey(c: Civil): string
    requires ValidCivil(c)
  {
    FormatKey(c.year, c.month, c.day)
  }

  /** `${year}-${monthStr}-` with `monthStr = String(month).padStart(2, '0')`:
      the part a month's two bounds share. */
  function MonthPrefix(year: int, month: int): string {
    IntToString(year) + "-" + PadStart(IntToString(month), 2, '0') + "-"
  }

  /** Followed by a padded day, the prefix of a month 1 to 12 is that day's key. */
  lemma MonthPrefixKey(year: int, month: int, d: nat)
    requires 1 <= month <= 12
    ensures MonthPrefix(year, month) + Pad2(d) == FormatKey(year, month, d)
  {}

  /** `s` is the two-digit padding of `n`. */
  lemma TwoDigitNumeral(n: nat, s: string)
    requires n < 100 && |s| == 2 && AllDigits(s) && DecimalValue(s) == n
    ensures Pad2(n) == s
  {
    Pad2Numeral(n);
    DecimalValueInjective(Pad2(n), s);
  }

  predicate FourDigitYear(y: int) {
    1000 <= y <= 9999
  }

  lemma YearNumeral(y: int)
    requires FourDigitYear(y)
    ensures IntToString(y) == NatToDecimal(y) && |IntToString(y)| == 4
  {
    assert Pow10(3) == 1000 && Pow10(4) == 10000;
    NatToDecimalLength(y, 4);
  }

  /** The pieces of `a-b-c` when they are 4, 2 and 2 characters long. */
  lemma KeySlices(a: string, b: string, c: string)
    requires |a| == 4 && |b| == 2 && |c| == 2
    ensures var k := a + "-" + b + "-" + c;
      |k| == 10 && k[4] == '-' && k[7] == '-' && k[..4] == a && k[5..7] == b && k[8..] == c
  {}

  /** A key with a four-digit year has the shape `DDDD-DD-DD`, and its three
      digit groups read back as the year, the month and the day. */
  lemma FormatKeyShape(y: int, m: nat, d: nat)
    requires FourDigitYear(y) && m < 100 && d < 100
    ensures var k := FormatKey(y, m, d);
      |k| == 10 && k[4] == '-' && k[7] == '-'
      && AllDigits(k[..4]) && AllDigits(k[5..7]) && AllDigits(k[8..])
      && DecimalValue(k[..4]) == y && DecimalValue(k[5..7]) == m && DecimalValue(k[8..]) == d
  {
    YearNumeral(y);
    Pad2Numeral(m);
    Pad2Numeral(d);
    KeySlices(IntToString(y), Pad2(m), Pad2(d));
  }

  /** Comparing `p-q` with `p'-q'` for equally long numerals `p`, `p'`. */
  lemma LexLeSeparated(p: string, q: string, p': string, q': string)
    requires AllDigits(p) && AllDigits(p') && |p| == |p'|
    ensures LexLe(p + "-" + q, p' + "-" + q') <==>
      DecimalValue(p) < DecimalValue(p') || (DecimalValue(p) == DecimalValue(p') && LexLe(q, q'))
  {
    assert p + "-" + q == p + ("-" + q);
    assert p' + "-" + q' == p' + ("-" + q');
    LexLeConcat(p, "-" + q, p', "-" + q');
    LexLtDigits(p, p');
    if DecimalValue(p) == DecimalValue(p') {
      DecimalValueInjective(p, p');
    }
    LexLeConcat("-", q, "-", q');
  }

  lemma Regroup(y: string, m: string, d: string)
    ensures y + "-" + m + "-" + d == y + "-" + (m + "-" + d)
  {}

  /** Comparing `y-m-d` with `y'-m'-d'` for numerals of matching lengths
      compares their values field by field. */
  lemma NumeralKeyOrder(y: string, m: string, d: string, y': string, m': string, d': string)
    requires AllDigits(y) && AllDigits(m) && AllDigits(d) && AllDigits(y') && AllDigits(m') && AllDigits(d')
    requires |y| == |y'| && |m| == |m'| && |d| == |d'|
    ensures LexLe(y + "-" + m + "-" + d, y' + "-" + m' + "-" + d') <==>
      (DecimalValue(y) < DecimalValue(y')
       || (DecimalValue(y) == DecimalValue(y')
           && (DecimalValue(m) < DecimalValue(m')
               || (DecimalValue(m) == DecimalValue(m') && DecimalValue(d) <= DecimalValue(d')))))
  {
    Regroup(y, m, d);
    Regroup(y', m', d');
    LexLeSeparated(y, m + "-" + d, y', m' + "-" + d');
    MonthDayOrder(m, d, m', d');
  }

  /** The `m-d` tail of a key compares month first, then day. */
  lemma MonthDayOrder(m: string, d: string, m': string, d': string)
    requires AllDigits(m) && AllDigits(d) && AllDigits(m') && AllDigits(d')
    requires |m| == |m'| && |d| == |d'|
    ensures LexLe(m + "-" + d, m' + "-" + d') <==>
      (DecimalValue(m) < DecimalValue(m')
       || (DecimalValue(m) == DecimalValue(m') && DecimalValue(d) <= DecimalValue(d')))
  {
    LexLeSeparated(m, d, m', d');
    LexLeDigits(d, d');
  }

  /** For four-digit years, comparing keys as strings compares
      (year, month, day) field by field. */
  lemma FormatKeyOrder(y1: int, m1: nat, d1: nat, y2: int, m2: nat, d2: nat)
    requires FourDigitYear(y1) && FourDigitYear(y2)
    requires m1 < 100 && d1 < 100 && m2 < 100 && d2 < 100
    ensures LexLe(FormatKey(y1, m1, d1), FormatKey(y2, m2, d2)) <==>
      (y1 < y2 || (y1 == y2 && (m1 < m2 || (m1 == m2 && d1 <= d2))))
  {
    YearNumeral(y1);
    YearNumeral(y2);
    Pad2Numeral(m1);
    Pad2Numeral(m2);
    Pad2Numeral(d1);
    Pad2Numeral(d2);
    NumeralKeyOrder(IntToString(y1), Pad2(m1), Pad2(d1), IntToString(y2), Pad2(m2), Pad2(d2));
  }

  /** For four-digit years, string order on day keys is chronological order. */
  lemma KeyOrderIsChronological(a: Civil, b: Civil)
    requires ValidCivil(a) && ValidCivil(b)
    requires FourDigitYear(a.year) && FourDigitYear(b.year)
    ensures LexLe(DateKey(a), DateKey(b)) <==> DaysFromCivil(a) <= DaysFromCivil(b)
  {
    FormatKeyOrder(a.year, a.month, a.day, b.year, b.month, b.day);
    DaysFromCivilOrder(a, b);
  }

  /** Distinct dates have distinct keys. */
  lemma DateKeyInjective(a: Civil, b: Civil)
    requires ValidCivil(a) && ValidCivil(b)
    requires FourDigitYear(a.year) && FourDigitYear(b.year)
    requires DateKey(a) == DateKey(b)
    ensures a == b
  {
    LexLeReflexive(DateKey(a));
    FormatKeyOrder(a.year, a.month, a.day, b.year, b.month, b.day);
    FormatKeyOrder(b.year, b.month, b.day, a.year, a.month, a.day);
  }

  /** The closed key range from day 1 to day `e` of a month, for any `e` from
      the month's length up to 99, holds the keys of exactly that month's
      days: an upper bound past the month's end lets no later date in. */
  lemma MonthRangeExact(c: Civil, y: int, m: nat, e: nat)
    requires ValidCivil(c) && FourDigitYear(c.year)
    requires FourDigitYear(y) && 1 <= m <= 12
    requires DaysInMonth(y, m) <= e < 100
    ensures LexLe(FormatKey(y, m, 1), DateKey(c)) && LexLe(DateKey(c), FormatKey(y, m, e))
      <==> c.year == y && c.month == m
  {
    FormatKeyOrder(y, m, 1, c.year, c.month, c.day);
    FormatKeyOrder(c.year, c.month, c.day, y, m, e);
  }
}
