/** The ECMAScript time-value model (ECMA-262, section 21.4.1) that the
    handlers' `Date` arithmetic follows: a proleptic Gregorian calendar, time
    values in milliseconds since 1970-01-01T00:00:00Z, and day numbers counted
    from that same origin. Only integral time values are modelled. */
module EcmaTime {

  const MsPerMinute: int := 60000
  const MsPerHour: int := 3600000
  const MsPerDay: int := 86400000

  /** The largest magnitude TimeClip lets through (section 21.4.1.31). */
  const MaxTimeValue: int := 8640000000000000

  predicate IsTimeValue(t: int) {
    -MaxTimeValue <= t <= MaxTimeValue
  }

  // ---------------------------------------------------------------------------
  // Years
  // ---------------------------------------------------------------------------

  /** The leap-year rule of DaysInYear (section 21.4.1.3); `%` by a positive
      constant is the specification's "modulo". */
  predicate InLeapYear(y: int) {
    y % 4 == 0 && (y % 100 != 0 || y % 400 == 0)
  }

  function DaysInYear(y: int): int {
    if InLeapYear(y) then 366 else 365
  }

  /** Day number of January 1st of year `y` (DayFromYear, section 21.4.1.3).
      Dafny's `/` by a positive constant is the specification's floor. */
  function DayFromYear(y: int): int {
    365 * (y - 1970) + (y - 1969) / 4 - (y - 1901) / 100 + (y - 1601) / 400
  }

  // `(z - a) / k` steps up exactly when `z` reaches a multiple of `k`, for the
  // three offsets in DayFromYear (each a multiple of its divisor).

  lemma FloorStep4(z: int)
    ensures (z - 1968) / 4 - (z - 1969) / 4 == if z % 4 == 0 then 1 else 0
  {
    var q, r := z / 4, z % 4;
    assert z == 4 * q + r;
    if r == 0 {
      assert z - 1968 == 4 * (q - 492);
      assert z - 1969 == 4 * (q - 493) + 3;
    } else {
      assert z - 1968 == 4 * (q - 492) + r;
      assert z - 1969 == 4 * (q - 492) + (r - 1);
    }
  }

  lemma FloorStep100(z: int)
    ensures (z - 1900) / 100 - (z - 1901) / 100 == if z % 100 == 0 then 1 else 0
  {
    var q, r := z / 100, z % 100;
    assert z == 100 * q + r;
    if r == 0 {
      assert z - 1900 == 100 * (q - 19);
      assert z - 1901 == 100 * (q - 20) + 99;
    } else {
      assert z - 1900 == 100 * (q - 19) + r;
      assert z - 1901 == 100 * (q - 19) + (r - 1);
    }
  }

  lemma FloorStep400(z: int)
    ensures (z - 1600) / 400 - (z - 1601) / 400 == if z % 400 == 0 then 1 else 0
  {
    var q, r := z / 400, z % 400;
    assert z == 400 * q + r;
    if r == 0 {
      assert z - 1600 == 400 * (q - 4);
      assert z - 1601 == 400 * (q - 5) + 399;
    } else {
      assert z - 1600 == 400 * (q - 4) + r;
      assert z - 1601 == 400 * (q - 4) + (r - 1);
    }
  }

  /** The closed form of DayFromYear advances by exactly the length of each year. */
  lemma DayFromYearStep(y: int)
    ensures DayFromYear(y + 1) == DayFromYear(y) + DaysInYear(y)
  {
    FloorStep4(y);
    FloorStep100(y);
    FloorStep400(y);
    DivisorsNest(y);
    assert DayFromYear(y + 1) - DayFromYear(y) ==
      365 + ((y - 1968) / 4 - (y - 1969) / 4) - ((y - 1900) / 100 - (y - 1901) / 100)
      + ((y - 1600) / 400 - (y - 1601) / 400);
  }

  /** Multiples of 400 are multiples of 100, which are multiples of 4. */
  lemma DivisorsNest(y: int)
    ensures y % 100 == 0 ==> y % 4 == 0
    ensures y % 400 == 0 ==> y % 100 == 0
  {
    var q, r := y / 400, y % 400;
    assert y == 400 * q + r;
    if r == 0 {
      assert y == 100 * (4 * q);
    }
    var q', r' := y / 100, y % 100;
    assert y == 100 * q' + r';
    if r' == 0 {
      assert y == 4 * (25 * q');
    }
  }

  lemma {:induction false} DayFromYearIncreasing(a: int, b: int)
    requires a < b
    ensures DayFromYear(a) + DaysInYear(a) <= DayFromYear(b)
    decreases b - a
  {
    DayFromYearStep(a);
    if a + 1 < b {
      DayFromYearIncreasing(a + 1, b);
    }
  }

  /** Walks year by year from `y` to the year holding day `n`. */
  function YearWalk(n: int, y: int): (r: int)
    ensures DayFromYear(r) <= n < DayFromYear(r) + DaysInYear(r)
    decreases n < DayFromYear(y), if n < DayFromYear(y) then DayFromYear(y) - n else n - DayFromYear(y)
  {
    DayFromYearStep(y - 1);
    DayFromYearStep(y);
    if n < DayFromYear(y) then YearWalk(n, y - 1)
    else if n < DayFromYear(y) + DaysInYear(y) then y
    else YearWalk(n, y + 1)
  }

  /** The year that day `n` falls in (YearFromTime, section 21.4.1.3, on day
      numbers): the largest `y` whose first day is not after `n`. */
  function YearFromDay(n: int): (y: int)
    ensures DayFromYear(y) <= n < DayFromYear(y) + DaysInYear(y)
  {
    YearWalk(n, 1970)
  }

  lemma YearFromDayUnique(n: int, y: int)
    requires DayFromYear(y) <= n < DayFromYear(y) + DaysInYear(y)
    ensures YearFromDay(n) == y
  {
    var r := YearFromDay(n);
    if r < y {
      DayFromYearIncreasing(r, y);
    } else if r > y {
      DayFromYearIncreasing(y, r);
    }
  }

  // ---------------------------------------------------------------------------
  // Months (MonthFromTime and DateFromTime, sections 21.4.1.4 and 21.4.1.5)
  // ---------------------------------------------------------------------------

  function DaysInMonth(y: int, m: int): (n: int)
    requires 1 <= m <= 12
    ensures 28 <= n <= 31
  {
    if m == 2 then (if InLeapYear(y) then 29 else 28)
    else if m == 4 || m == 6 || m == 9 || m == 11 then 30
    else 31
  }

  /** Days of year `y` that precede the first of month `m`: the cumulative
      constants of MonthFromTime, shifted by one after February in leap years. */
  function DaysBeforeMonth(y: int, m: int): int
    requires 1 <= m <= 12
  {
    var leap := if InLeapYear(y) then 1 else 0;
    if m == 1 then 0
    else if m == 2 then 31
    else [59, 90, 120, 151, 181, 212, 243, 273, 304, 334][m - 3] + leap
  }

  lemma DaysBeforeMonthStep(y: int, m: int)
    requires 1 <= m <= 12
    ensures m < 12 ==> DaysBeforeMonth(y, m + 1) == DaysBeforeMonth(y, m) + DaysInMonth(y, m)
    ensures m == 12 ==> DaysBeforeMonth(y, m) + DaysInMonth(y, m) == DaysInYear(y)
  {}

  lemma {:induction false} DaysBeforeMonthIncreasing(y: int, a: int, b: int)
    requires 1 <= a < b <= 12
    ensures DaysBeforeMonth(y, a) + DaysInMonth(y, a) <= DaysBeforeMonth(y, b)
    decreases b - a
  {
    DaysBeforeMonthStep(y, a);
    if a + 1 < b {
      DaysBeforeMonthIncreasing(y, a + 1, b);
    }
  }

  /** Every month ends within its year. */
  lemma MonthWithinYear(y: int, m: int)
    requires 1 <= m <= 12
    ensures DaysBeforeMonth(y, m) + DaysInMonth(y, m) <= DaysInYear(y)
  {
    DaysBeforeMonthStep(y, 12);
    if m < 12 {
      DaysBeforeMonthIncreasing(y, m, 12);
    }
  }

  /** Walks month by month from `m` to the month holding day `d` of year `y`. */
  function MonthWalk(y: int, d: int, m: int): (r: int)
    requires 1 <= m <= 12
    requires DaysBeforeMonth(y, m) <= d < DaysInYear(y)
    ensures m <= r <= 12
    ensures DaysBeforeMonth(y, r) <= d < DaysBeforeMonth(y, r) + DaysInMonth(y, r)
    decreases 12 - m
  {
    DaysBeforeMonthStep(y, m);
    if d < DaysBeforeMonth(y, m) + DaysInMonth(y, m) then m
    else MonthWalk(y, d, m + 1)
  }

  /** The month (1 to 12) holding day `d` of year `y`, `d` counted from 0. */
  function MonthFromDay(y: int, d: int): (m: int)
    requires 0 <= d < DaysInYear(y)
    ensures 1 <= m <= 12
    ensures DaysBeforeMonth(y, m) <= d < DaysBeforeMonth(y, m) + DaysInMonth(y, m)
  {
    MonthWalk(y, d, 1)
  }

  lemma MonthFromDayUnique(y: int, d: int, m: int)
    requires 1 <= m <= 12
    requires DaysBeforeMonth(y, m) <= d < DaysBeforeMonth(y, m) + DaysInMonth(y, m)
    ensures 0 <= d < DaysInYear(y)
    ensures MonthFromDay(y, d) == m
  {
    MonthWithinYear(y, m);
    var r := MonthFromDay(y, d);
    if r < m {
      DaysBeforeMonthIncreasing(y, r, m);
    } else if r > m {
      DaysBeforeMonthIncreasing(y, m, r);
    }
  }

  // ---------------------------------------------------------------------------
  // Civil dates and day numbers
  // ---------------------------------------------------------------------------

  /** A proleptic Gregorian calendar date; `month` and `day` count from 1. */
  datatype Civil = Civil(year: int, month: int, day: int)

  predicate ValidCivil(c: Civil) {
    1 <= c.month <= 12 && 1 <= c.day <= DaysInMonth(c.year, c.month)
  }

  /** Day number of a civil date (MakeDay of section 21.4.1.28 for an in-range
      month and day). */
  function DaysFromCivil(c: Civil): int
    requires 1 <= c.month <= 12
  {
    DayFromYear(c.year) + DaysBeforeMonth(c.year, c.month) + c.day - 1
  }

  /** The civil date of day number `n`: YearFromTime, MonthFromTime and
      DateFromTime taken together. It is a right inverse of DaysFromCivil. */
  function CivilFromDays(n: int): (c: Civil)
    ensures ValidCivil(c)
    ensures DaysFromCivil(c) == n
  {
    var y := YearFromDay(n);
    var d := n - DayFromYear(y);
    var m := MonthFromDay(y, d);
    Civil(y, m, d - DaysBeforeMonth(y, m) + 1)
  }

  /** ... and a left inverse: every valid civil date is recovered from its day number. */
  lemma CivilRoundTrip(c: Civil)
    requires ValidCivil(c)
    ensures CivilFromDays(DaysFromCivil(c)) == c
  {
    var n := DaysFromCivil(c);
    var d := DaysBeforeMonth(c.year, c.month) + c.day - 1;
    assert 0 <= d < DaysInYear(c.year) && MonthFromDay(c.year, d) == c.month by {
      MonthFromDayUnique(c.year, d, c.month);
    }
    assert YearFromDay(n) == c.year by {
      YearFromDayUnique(n, c.year);
    }
    assert n - DayFromYear(c.year) == d;
    CivilFromDaysFields(n, c.year, d, c.month);
  }

  /** CivilFromDays once its year and month are known. */
  lemma CivilFromDaysFields(n: int, y: int, d: int, m: int)
    requires YearFromDay(n) == y && n - DayFromYear(y) == d
    requires 0 <= d < DaysInYear(y) && MonthFromDay(y, d) == m
    ensures CivilFromDays(n) == Civil(y, m, d - DaysBeforeMonth(y, m) + 1)
  {}

  /** Earlier civil dates have smaller day numbers: day numbers order civil
      dates exactly as (year, month, day) compared field by field does. */
  lemma DaysFromCivilOrder(a: Civil, b: Civil)
    requires ValidCivil(a) && ValidCivil(b)
    ensures DaysFromCivil(a) <= DaysFromCivil(b) <==>
      (a.year < b.year || (a.year == b.year &&
        (a.month < b.month || (a.month == b.month && a.day <= b.day))))
  {
    MonthWithinYear(a.year, a.month);
    MonthWithinYear(b.year, b.month);
    if a.year < b.year {
      DayFromYearIncreasing(a.year, b.year);
    } else if a.year > b.year {
      DayFromYearIncreasing(b.year, a.year);
    } else if a.month < b.month {
      DaysBeforeMonthIncreasing(a.year, a.month, b.month);
    } else if a.month > b.month {
      DaysBeforeMonthIncreasing(a.year, b.month, a.month);
    }
  }

  // ---------------------------------------------------------------------------
  // Time values
  // ---------------------------------------------------------------------------

  /** Day(t), section 21.4.1.2: the floor of `t / msPerDay`. */
  function Day(t: int): int {
    t / 86400000  // msPerDay
  }

  /** The UTC calendar date of time value `t`. */
  function CivilOfTime(t: int): (c: Civil)
    ensures ValidCivil(c)
  {
    CivilFromDays(Day(t))
  }

  /** MakeDate, section 21.4.1.29. */
  function MakeDate(day: int, time: int): int {
    day * 86400000 + time  // msPerDay
  }

  /** MakeFullYear, section 21.4.1.32: `Date.UTC` and the `Date` constructor
      read a year from 0 to 99 as 1900 to 1999. */
  function MakeFullYear(y: int): int {
    if 0 <= y <= 99 then 1900 + y else y
  }

  /** MakeDay, section 21.4.1.28: a zero-based month outside 0..11 carries into
      the year, and a date outside the month's days runs into its neighbours. */
  function MakeDay(year: int, month: int, date: int): int {
    var ym := year + month / 12;
    var mn := month % 12;
    DaysFromCivil(Civil(ym, mn + 1, 1)) + date - 1
  }

  /** Time values that share a day number lie on the same UTC date. */
  lemma DayOfMakeDate(day: int, time: int)
    requires 0 <= time < MsPerDay
    ensures Day(MakeDate(day, time)) == day
  {}

  /** MakeDay with the zero-based month of a valid civil date gives its day number. */
  lemma MakeDayOfCivil(c: Civil)
    requires ValidCivil(c)
    ensures MakeDay(c.year, c.month - 1, c.day) == DaysFromCivil(c)
  {}

  /** Date 0 of the month after `m` (zero-based month index `m`) is the last
      day of month `m`, December included: this is how `new Date(y, m, 0)`
      finds the length of a month. */
  lemma MakeDayDateZero(y: int, m: int)
    requires 1 <= m <= 12
    ensures CivilFromDays(MakeDay(y, m, 0)) == Civil(y, m, DaysInMonth(y, m))
  {
    var last := Civil(y, m, DaysInMonth(y, m));
    DaysBeforeMonthStep(y, m);
    if m == 12 {
      assert m / 12 == 1 && m % 12 == 0;
      DayFromYearStep(y);
      assert MakeDay(y, m, 0) == DayFromYear(y + 1) - 1;
    } else {
      assert m / 12 == 0 && m % 12 == m;
      assert MakeDay(y, m, 0) == DayFromYear(y) + DaysBeforeMonth(y, m + 1) - 1;
    }
    assert MakeDay(y, m, 0) == DaysFromCivil(last);
    CivilRoundTrip(last);
  }

  /** Day numbers of years 100 to 9999 are small enough for any time value
      built from them within a day or two to pass TimeClip. */
  lemma DayNumberBounds(c: Civil)
    requires ValidCivil(c) && 100 <= c.year <= 9999
    ensures DayFromYear(100) <= DaysFromCivil(c) < DayFromYear(10000)
  {
    MonthWithinYear(c.year, c.month);
    if c.year > 100 {
      DayFromYearIncreasing(100, c.year);
    }
    DayFromYearIncreasing(c.year, 10000);
  }

  lemma DayFromYearBounds()
    ensures DayFromYear(100) == -683003 && DayFromYear(10000) == 2932897
  {}
}
