/** The proleptic Gregorian calendar of Python's `datetime.date`: a date is
    held as its ordinal (`date.toordinal()`), the day number counted from
    0001-01-01 = 1, and converted to and from year, month and day. */
module Calendar {
  import opened Wrappers
  import opened Decimal

  const MaxYear: int := 9999

  /** `date.max.toordinal()`, the ordinal of 9999-12-31. */
  const MaxOrdinal: int := 3652059

  /** A value of type `date`: every ordinal from 0001-01-01 to 9999-12-31. */
  type Day = n: int | 1 <= n <= MaxOrdinal witness 1

  datatype Date = Date(year: int, month: int, day: int)

  predicate IsLeapYear(y: int)
  {
    y % 4 == 0 && (y % 100 != 0 || y % 400 == 0)
  }

  function DaysInMonth(y: int, m: int): int
    requires 1 <= m <= 12
  {
    if m == 2 then (if IsLeapYear(y) then 29 else 28)
    else if m == 4 || m == 6 || m == 9 || m == 11 then 30
    else 31
  }

  function DaysInYear(y: int): int
  {
    if IsLeapYear(y) then 366 else 365
  }

  /** Days of year `y` before the first of month `m`; month 13 stands for the
      first of the next year. */
  function DaysBeforeMonth(y: int, m: int): int
    requires 1 <= m <= 13
  {
    (if m > 2 && IsLeapYear(y) then 1 else 0) +
    (if m == 1 then 0 else if m == 2 then 31 else if m == 3 then 59
     else if m == 4 then 90 else if m == 5 then 120 else if m == 6 then 151
     else if m == 7 then 181 else if m == 8 then 212 else if m == 9 then 243
     else if m == 10 then 273 else if m == 11 then 304 else if m == 12 then 334
     else 365)
  }

  /** Days before January 1 of year `y`, counted from 0001-01-01. */
  function DaysBeforeYear(y: int): int
    requires y >= 1
  {
    var p := y - 1;
    p * 365 + p / 4 - p / 100 + p / 400
  }

  predicate ValidDate(d: Date)
  {
    1 <= d.year <= MaxYear && 1 <= d.month <= 12 && 1 <= d.day <= DaysInMonth(d.year, d.month)
  }

  lemma DaysBeforeMonthStep(y: int, m: int)
    requires 1 <= m <= 12
    ensures DaysBeforeMonth(y, m + 1) == DaysBeforeMonth(y, m) + DaysInMonth(y, m)
  {
  }

  lemma DaysBeforeMonthMonotone(y: int, m1: int, m2: int)
    requires 1 <= m1 < m2 <= 13
    ensures DaysBeforeMonth(y, m1) + DaysInMonth(y, m1) <= DaysBeforeMonth(y, m2)
  {
  }

  lemma DaysBeforeYearStep(y: int)
    requires y >= 1
    ensures DaysBeforeYear(y + 1) == DaysBeforeYear(y) + DaysInYear(y)
  {
    QuotientStep(y);
  }

  /** How the counts of multiples of 4, 100 and 400 grow from `y - 1` to
      `y`. */
  lemma QuotientStep(y: int)
    ensures y / 4 == (y - 1) / 4 + (if y % 4 == 0 then 1 else 0)
    ensures y / 100 == (y - 1) / 100 + (if y % 100 == 0 then 1 else 0)
    ensures y / 400 == (y - 1) / 400 + (if y % 400 == 0 then 1 else 0)
    ensures y % 100 == 0 ==> y % 4 == 0
    ensures y % 400 == 0 ==> y % 100 == 0
  {
  }

  lemma {:induction false} DaysBeforeYearMonotone(a: int, b: int)
    requires 1 <= a < b
    ensures DaysBeforeYear(a) + DaysInYear(a) <= DaysBeforeYear(b)
    decreases b - a
  {
    DaysBeforeYearStep(a);
    if a + 1 < b {
      DaysBeforeYearMonotone(a + 1, b);
    }
  }

  /** Every year up to 9999 ends no later than `MaxOrdinal`. */
  lemma YearEndsInRange(y: int)
    requires 1 <= y <= MaxYear
    ensures DaysBeforeYear(y) + DaysInYear(y) <= MaxOrdinal
  {
    if y < MaxYear { DaysBeforeYearMonotone(y, MaxYear); }
  }

  /** `date.toordinal()`. */
  function ToOrdinal(d: Date): (n: Day)
    requires ValidDate(d)
    ensures DaysBeforeYear(d.year) < n <= DaysBeforeYear(d.year) + DaysInYear(d.year)
  {
    DaysBeforeMonthMonotone(d.year, d.month, 13);
    YearEndsInRange(d.year);
    DaysBeforeYear(d.year) + DaysBeforeMonth(d.year, d.month) + d.day
  }

  /** The year holding ordinal `n`, searched upwards from year `y`. */
  function YearOf(n: int, y: int): (r: int)
    requires 1 <= y && DaysBeforeYear(y) < n
    ensures y <= r && DaysBeforeYear(r) < n <= DaysBeforeYear(r) + DaysInYear(r)
    decreases n - DaysBeforeYear(y)
  {
    DaysBeforeYearStep(y);
    if n <= DaysBeforeYear(y) + DaysInYear(y) then y else YearOf(n, y + 1)
  }

  /** The month of year `y` holding its `r`-th day, searched upwards from `m`. */
  function MonthOf(y: int, r: int, m: int): (res: int)
    requires 1 <= m <= 12 && DaysBeforeMonth(y, m) < r <= DaysInYear(y)
    ensures m <= res <= 12
    ensures DaysBeforeMonth(y, res) < r <= DaysBeforeMonth(y, res) + DaysInMonth(y, res)
    decreases 12 - m
  {
    DaysBeforeMonthStep(y, m);
    if r <= DaysBeforeMonth(y, m) + DaysInMonth(y, m) then m else MonthOf(y, r, m + 1)
  }

  lemma YearOfInRange(n: Day)
    ensures YearOf(n, 1) <= MaxYear
  {
    var y := YearOf(n, 1);
    if y > MaxYear + 1 { DaysBeforeYearMonotone(MaxYear + 1, y); }
  }

  /** Every ordinal is the ordinal of some date: the year and the month that
      hold it are found by searching upwards from 0001-01-01. */
  lemma OrdinalHasDate(n: Day)
    ensures exists d :: ValidDate(d) && ToOrdinal(d) == n
  {
    var y := YearOf(n, 1);
    YearOfInRange(n);
    var r := n - DaysBeforeYear(y);
    var m := MonthOf(y, r, 1);
    var d := Date(y, m, r - DaysBeforeMonth(y, m));
    assert ValidDate(d) && ToOrdinal(d) == n;
  }

  /** `date.fromordinal(n)`: the calendar date whose ordinal is `n`. */
  function FromOrdinal(n: Day): (d: Date)
    ensures ValidDate(d) && ToOrdinal(d) == n
  {
    OrdinalHasDate(n);
    ToOrdinalInjectiveAll();
    var d :| ValidDate(d) && ToOrdinal(d) == n; d
  }

  lemma ToOrdinalInjectiveAll()
    ensures forall a, b :: ValidDate(a) && ValidDate(b) && ToOrdinal(a) == ToOrdinal(b) ==> a == b
  {
    forall a, b | ValidDate(a) && ValidDate(b) && ToOrdinal(a) == ToOrdinal(b)
      ensures a == b
    {
      ToOrdinalInjective(a, b);
    }
  }

  /** Distinct dates have distinct ordinals. */
  lemma ToOrdinalInjective(a: Date, b: Date)
    requires ValidDate(a) && ValidDate(b) && ToOrdinal(a) == ToOrdinal(b)
    ensures a == b
  {
    if a.year < b.year {
      DaysBeforeYearMonotone(a.year, b.year);
    } else if b.year < a.year {
      DaysBeforeYearMonotone(b.year, a.year);
    } else if a.month < b.month {
      DaysBeforeMonthMonotone(a.year, a.month, b.month);
    } else if b.month < a.month {
      DaysBeforeMonthMonotone(a.year, b.month, a.month);
    }
  }

  /** `date.fromordinal(d.toordinal()) == d` for every valid date. */
  lemma FromToOrdinal(d: Date)
    requires ValidDate(d)
    ensures FromOrdinal(ToOrdinal(d)) == d
  {
    ToOrdinalInjective(FromOrdinal(ToOrdinal(d)), d);
  }

  /** `date.weekday()`: Monday is 0 and Sunday is 6; 0001-01-01 was a Monday. */
  function Weekday(n: int): (w: int)
    ensures 0 <= w < 7
  {
    (n + 6) % 7
  }

  /** Whole weeks later, the weekday is the same. */
  lemma {:induction false} WeekdayAfterWeeks(n: int, i: nat)
    ensures Weekday(n + 7 * i) == Weekday(n)
  {
    if i > 0 {
      WeekdayAfterWeeks(n, i - 1);
      assert n + 7 * i == (n + 7 * (i - 1)) + 7;
    }
  }

  /** `str(date)`, that is `date.isoformat()`: `YYYY-MM-DD`. */
  function IsoFormat(n: Day): string
  {
    var d := FromOrdinal(n);
    PadDigits(d.year, 4) + "-" + PadDigits(d.month, 2) + "-" + PadDigits(d.day, 2)
  }

  /** Parsing of a date cell, restricted to the `YYYY-MM-DD` form; `None`
      stands for pandas' `NaT` (an unparseable or impossible date). */
  function ParseIsoDate(s: string): Option<Day>
  {
    if |s| == 10 && s[4] == '-' && s[7] == '-'
       && AllDigits(s[..4]) && AllDigits(s[5..7]) && AllDigits(s[8..]) then
      var d := Date(DigitsValue(s[..4]), DigitsValue(s[5..7]), DigitsValue(s[8..]));
      if ValidDate(d) then Some(ToOrdinal(d)) else None
    else None
  }

  /** Reading back the text `str(date)` writes gives the same date. */
  lemma IsoRoundTrip(n: Day)
    ensures ParseIsoDate(IsoFormat(n)) == Some(n)
  {
    var d := FromOrdinal(n);
    assert d.day <= 31;
    var ys, ms, ds := PadDigits(d.year, 4), PadDigits(d.month, 2), PadDigits(d.day, 2);
    IsoFields(ys, ms, ds);
    PadDigitsWidths(d.year, d.month, d.day);
    assert IsoFormat(n) == ys + "-" + ms + "-" + ds;
  }

  /** The three fields of an ISO date sit at fixed places. */
  lemma IsoFields(ys: string, ms: string, ds: string)
    requires |ys| == 4 && |ms| == 2 && |ds| == 2
    ensures var s := ys + "-" + ms + "-" + ds;
      |s| == 10 && s[4] == '-' && s[7] == '-' && s[..4] == ys && s[5..7] == ms && s[8..] == ds
  {
  }

  /** A year, month and day written in four, two and two digits read back. */
  lemma PadDigitsWidths(y: nat, m: nat, d: nat)
    requires y <= 9999 && m <= 99 && d <= 99
    ensures DigitsValue(PadDigits(y, 4)) == y
    ensures DigitsValue(PadDigits(m, 2)) == m
    ensures DigitsValue(PadDigits(d, 2)) == d
  {
    assert Pow10(2) == 100;
    assert Pow10(4) == 10000;
    PadDigitsValue(y, 4);
    PadDigitsValue(m, 2);
    PadDigitsValue(d, 2);
  }

}
