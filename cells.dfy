/** Worksheet cells as a record read from a sheet holds them, and the three
    ways the app turns a cell into a value: `str(cell)`, `int(cell)` (or
    `pd.to_numeric(cell, errors="coerce")`) and, for the date column,
    `pd.to_datetime(cell, errors="coerce")`. */
module Cells {
  import opened Wrappers
  import opened Decimal
  import opened Calendar

  /** A cell is a whole number (a numeric cell) or text (anything else,
      the empty string for a blank cell). */
  datatype Cell = Int(i: int) | Text(s: string)

  /** `str(cell)`. */
  function Str(c: Cell): string
  {
    match c
    case Int(i) => IntToString(i)
    case Text(s) => s
  }

  /** `int(cell)`, and `pd.to_numeric(cell, errors="coerce")` on whole
      numbers: `None` where `int` raises and `to_numeric` gives `NaN`. */
  function IntValue(c: Cell): Option<int>
  {
    match c
    case Int(i) => Some(i)
    case Text(s) => ParseInt(s)
  }

  /** The first and the last day whose midnight a pandas nanosecond
      timestamp can hold: 1677-09-22 and 2262-04-11. */
  const FirstTimestampDay: int := 612412
  const LastTimestampDay: int := 825914

  predicate InTimestampRange(d: Day)
  {
    FirstTimestampDay <= d <= LastTimestampDay
  }

  /** The two bounds are the days their names say. */
  lemma TimestampBoundDates()
    ensures ToOrdinal(Date(1677, 9, 22)) == FirstTimestampDay
    ensures ToOrdinal(Date(2262, 4, 11)) == LastTimestampDay
  {
  }

  /** `pd.to_datetime(cell, errors="coerce").dt.date` on a cell of the date
      column; `None` is `NaT`, also for a well-formed date outside the range
      of a nanosecond timestamp. */
  function DateValue(c: Cell): (r: Option<Day>)
    ensures r.Some? ==> InTimestampRange(r.value)
  {
    match c
    case Int(_) => None
    case Text(s) =>
      match ParseIsoDate(s)
      case None => None
      case Some(d) => if InTimestampRange(d) then Some(d) else None
  }

  /** Reading a number back from its own text gives the number. */
  lemma IntValueOfStr(c: Cell)
    requires c.Int?
    ensures IntValue(Text(Str(c))) == IntValue(c)
  {
    ParseIntToString(c.i);
  }

  /** Comparing two numeric cells as strings is comparing the numbers. */
  lemma StrOfIntInjective(a: int, b: int)
    ensures Str(Int(a)) == Str(Int(b)) <==> a == b
  {
    if Str(Int(a)) == Str(Int(b)) {
      IntToStringInjective(a, b);
    }
  }

  /** A date written as `str(date)` reads back as the same date when a
      timestamp can hold it, and as `NaT` otherwise. */
  lemma DateValueOfIso(d: Day)
    ensures DateValue(Text(IsoFormat(d))) == if InTimestampRange(d) then Some(d) else None
  {
    IsoRoundTrip(d);
  }
}
