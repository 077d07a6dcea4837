/** The date helpers of the app: the Monday-to-Sunday week around a date, the
    calendar month around a date, and the weeks that overlap a month. The
    reference date is a parameter where the app reads `date.today()`; `None`
    stands for the `OverflowError`/`ValueError` Python raises when a result
    would fall after 9999-12-31. */
module DateWindows {
  import opened Wrappers
  import opened Calendar
  import opened Decimal

  /** One entry of `get_month_weeks`, `(label, start, end)`: the label is
      determined by the two days and is computed by `Caption`. */
  datatype Week = Week(start: Day, end: Day)
  {
    /** The label the app shows for the week. */
    function Caption(): string
    {
      WeekLabel(start, end)
    }
  }

  /** The Monday on or before `d`: `d` moved back by its weekday. */
  function MondayOnOrBefore(d: Day): (mon: Day)
    ensures Weekday(mon) == 0 && mon <= d < mon + 7
  {
    assert (d + 6) % 7 == (d - 1) % 7;
    d - Weekday(d)
  }

  /** The Monday on or before a day is the only Monday of the seven days
      ending on it. */
  lemma MondayOnOrBeforeUnique(d: Day, m: int)
    requires Weekday(m) == 0 && m <= d < m + 7
    ensures m == MondayOnOrBefore(d)
  {
    var mon: int := MondayOnOrBefore(d);
    assert (m + 6) % 7 == 0 && (mon + 6) % 7 == 0;
    assert -7 < m - mon < 7;
  }

  /** `get_week_range(ref)`: `(mon, sun)`. */
  function WeekRange(ref: Day): (r: Option<(Day, Day)>)
    ensures r.None? <==> ref > MaxOrdinal - 5
    ensures r.Some? ==> Weekday(r.value.0) == 0 && r.value.1 == r.value.0 + 6
    ensures r.Some? ==> r.value.0 <= ref <= r.value.1
  {
    var mon := MondayOnOrBefore(ref);
    assert Weekday(MaxOrdinal) == 4;
    if mon + 6 > MaxOrdinal then None else Some((mon, mon + 6))
  }

  /** `get_week_range(ref)` is the Monday on or before `ref` and the Sunday
      six days later whenever that Sunday is a `date`. */
  lemma WeekRangeIsMondayWeek(ref: Day)
    requires ref <= MaxOrdinal - 5
    ensures WeekRange(ref).Some?
    ensures WeekRange(ref).value.0 == MondayOnOrBefore(ref)
    ensures WeekRange(ref).value.1 == MondayOnOrBefore(ref) + 6
  {
    MondayOnOrBeforeUnique(ref, WeekRange(ref).value.0);
  }

  /** The first of the month after month `m` of year `y`: January 1 of the
      next year for December, the first of month `m + 1` otherwise. */
  function NextMonthFirst(y: int, m: int): (n: Day)
    requires 1 <= y <= MaxYear && 1 <= m <= 12 && !(y == MaxYear && m == 12)
    ensures n >= 2
  {
    if m == 12 then ToOrdinal(Date(y + 1, 1, 1)) else ToOrdinal(Date(y, m + 1, 1))
  }

  /** The day before the first of the next month is the last day of the month. */
  lemma NextMonthFirstFollowsLastDay(y: int, m: int)
    requires 1 <= y <= MaxYear && 1 <= m <= 12 && !(y == MaxYear && m == 12)
    ensures NextMonthFirst(y, m) - 1 == ToOrdinal(Date(y, m, DaysInMonth(y, m)))
  {
    DaysBeforeMonthStep(y, m);
    DaysBeforeYearStep(y);
  }

  lemma LastDayOfMonth(y: int, m: int)
    requires 1 <= y <= MaxYear && 1 <= m <= 12 && !(y == MaxYear && m == 12)
    ensures FromOrdinal(NextMonthFirst(y, m) - 1) == Date(y, m, DaysInMonth(y, m))
  {
    NextMonthFirstFollowsLastDay(y, m);
    FromToOrdinal(Date(y, m, DaysInMonth(y, m)));
  }

  /** A day lies between the first and the last day of its own month. */
  lemma DayInItsMonth(ref: Day)
    ensures var d := FromOrdinal(ref);
      && ToOrdinal(Date(d.year, d.month, 1)) <= ref
      && ref <= ToOrdinal(Date(d.year, d.month, DaysInMonth(d.year, d.month)))
      && ToOrdinal(Date(d.year, d.month, DaysInMonth(d.year, d.month))) - ToOrdinal(Date(d.year, d.month, 1))
         == DaysInMonth(d.year, d.month) - 1
  {
  }

  /** `get_month_range(ref)`: `(first, last)` of the month holding `ref`. */
  function MonthRange(ref: Day): Option<(Day, Day)>
  {
    var d := FromOrdinal(ref);
    if d.year == MaxYear && d.month == 12 then None
    else Some((ToOrdinal(Date(d.year, d.month, 1)), NextMonthFirst(d.year, d.month) - 1))
  }

  /** `get_month_range` gives the first and the last day of the month holding
      `ref`, the December-to-January rollover included; only December 9999,
      whose next January 1 is not a `date`, has no range. */
  lemma MonthRangeIsMonth(ref: Day)
    ensures var d := FromOrdinal(ref); MonthRange(ref).None? <==> d.year == MaxYear && d.month == 12
    ensures MonthRange(ref).Some? ==>
      var d := FromOrdinal(ref);
      var (first, last) := MonthRange(ref).value;
      && FromOrdinal(first) == Date(d.year, d.month, 1)
      && FromOrdinal(last) == Date(d.year, d.month, DaysInMonth(d.year, d.month))
      && last - first + 1 == DaysInMonth(d.year, d.month)
      && first <= ref <= last
  {
    var d := FromOrdinal(ref);
    if !(d.year == MaxYear && d.month == 12) {
      FromToOrdinal(Date(d.year, d.month, 1));
      NextMonthFirstFollowsLastDay(d.year, d.month);
      LastDayOfMonth(d.year, d.month);
      DayInItsMonth(ref);
    }
  }

  /** A month that has a range ends at least a week before 9999-12-31, so every
      week overlapping it has a Sunday that is a `date`. */
  lemma MonthRangeEndsEarly(ref: Day)
    requires MonthRange(ref).Some?
    ensures MonthRange(ref).value.1 + 6 <= MaxOrdinal
  {
    var d := FromOrdinal(ref);
    var last := MonthRange(ref).value.1;
    NextMonthFirstFollowsLastDay(d.year, d.month);
    if d.year < MaxYear {
      DaysBeforeYearMonotone(d.year, MaxYear);
    }
  }

  /** `f"{cur.month}/{cur.day}–{w_end.month}/{w_end.day}"`. */
  function WeekLabel(start: Day, end: Day): string
  {
    var s := FromOrdinal(start);
    var e := FromOrdinal(end);
    NatToString(s.month) + "/" + NatToString(s.day) + "\U{2013}" +
    NatToString(e.month) + "/" + NatToString(e.day)
  }

  /** The weeks `[cur, cur + 6]`, `[cur + 7, cur + 13]`, ... whose Monday is on
      or before `last`: what the loop of `get_month_weeks` appends. */
  function WeeksFrom(cur: int, last: int): seq<Week>
    requires 1 <= cur && last + 6 <= MaxOrdinal
    decreases last - cur + 7
  {
    if cur > last then []
    else [Week(cur, cur + 6)] + WeeksFrom(cur + 7, last)
  }

  /** `get_month_weeks(ref)`, as a value. */
  function MonthWeeks(ref: Day): Option<seq<Week>>
  {
    match MonthRange(ref)
    case None => None
    case Some((first, last)) =>
      MonthRangeEndsEarly(ref);
      Some(WeeksFrom(MondayOnOrBefore(first), last))
  }

  /** The shape of the weeks from `cur`: week `i` starts `7 * i` days after
      `cur`, lasts seven days and starts on or before `last`, and the last
      week reaches `last`. */
  lemma {:induction false} WeeksFromShape(cur: int, last: int)
    requires 1 <= cur && last + 6 <= MaxOrdinal
    ensures var ws := WeeksFrom(cur, last);
      && (cur > last <==> ws == [])
      && (forall i :: 0 <= i < |ws| ==>
            && ws[i].start == cur + 7 * i
            && ws[i].end == ws[i].start + 6
            && ws[i].start <= last)
      && (ws != [] ==> last <= ws[|ws| - 1].end)
    decreases last - cur + 7
  {
    if cur <= last {
      WeeksFromShape(cur + 7, last);
      var ws := WeeksFrom(cur, last);
      var rest := WeeksFrom(cur + 7, last);
      assert ws == [ws[0]] + rest;
      forall i | 1 <= i < |ws|
        ensures ws[i].start == cur + 7 * i
      {
        assert ws[i] == rest[i - 1];
      }
    }
  }

  /** Day `d` falls in one of the weeks `ws`. */
  ghost predicate InSomeWeek(ws: seq<Week>, d: int)
  {
    exists i :: 0 <= i < |ws| && ws[i].start <= d <= ws[i].end
  }

  /** The weeks from the Monday on or before `first` up to `last`: at least
      one; the first starts on that Monday; each is a Monday-to-Sunday week
      starting on or before `last`; each starts the day after the previous
      one ends; and together they reach `last`, so every day from `first` to
      `last` lies in one of them. */
  lemma WeeksCoverSpan(first: Day, last: Day)
    requires first <= last && last + 6 <= MaxOrdinal
    ensures var ws := WeeksFrom(MondayOnOrBefore(first), last);
      && |ws| >= 1
      && ws[0].start == MondayOnOrBefore(first)
      && (forall i :: 0 <= i < |ws| ==>
            Weekday(ws[i].start) == 0 && ws[i].end == ws[i].start + 6 && ws[i].start <= last)
      && (forall i :: 0 <= i < |ws| - 1 ==> ws[i + 1].start == ws[i].end + 1)
      && last <= ws[|ws| - 1].end
      && (forall d :: first <= d <= last ==> InSomeWeek(ws, d))
  {
    var cur := MondayOnOrBefore(first);
    var ws := WeeksFrom(cur, last);
    WeeksFromShape(cur, last);
    forall i | 0 <= i < |ws|
      ensures Weekday(ws[i].start) == 0
    {
      WeekdayAfterWeeks(cur, i);
    }
    forall d | first <= d <= last
      ensures InSomeWeek(ws, d)
    {
      var i := (d - cur) / 7;
      assert 7 * i <= d - cur < 7 * i + 7;
      var k := |ws| - 1;
      assert cur + 7 * k + 6 >= last;
      assert i <= k;
      assert ws[i].start == cur + 7 * i;
    }
  }

  /** The month's range in terms of its weeks: `MonthWeeks` is `WeeksFrom`
      the Monday on or before the 1st up to the last day of the month. */
  lemma MonthWeeksFromRange(ref: Day)
    requires MonthRange(ref).Some?
    ensures MonthRange(ref).value.0 <= MonthRange(ref).value.1
    ensures MonthRange(ref).value.1 + 6 <= MaxOrdinal
    ensures MonthWeeks(ref) ==
      Some(WeeksFrom(MondayOnOrBefore(MonthRange(ref).value.0), MonthRange(ref).value.1))
  {
    MonthRangeIsMonth(ref);
    MonthRangeEndsEarly(ref);
  }

  /** The weeks of a month cover it: `WeeksCoverSpan` for the first and the
      last day of the month holding `ref`. */
  lemma MonthWeeksCoverMonth(ref: Day)
    requires MonthRange(ref).Some?
    ensures MonthWeeks(ref).Some?
    ensures var first := MonthRange(ref).value.0;
      var last := MonthRange(ref).value.1;
      var ws := MonthWeeks(ref).value;
      && |ws| >= 1
      && ws[0].start == MondayOnOrBefore(first)
      && (forall i :: 0 <= i < |ws| ==>
            Weekday(ws[i].start) == 0 && ws[i].end == ws[i].start + 6 && ws[i].start <= last)
      && (forall i :: 0 <= i < |ws| - 1 ==> ws[i + 1].start == ws[i].end + 1)
      && last <= ws[|ws| - 1].end
      && (forall d :: first <= d <= last ==> InSomeWeek(ws, d))
  {
    MonthWeeksFromRange(ref);
    WeeksCoverSpan(MonthRange(ref).value.0, MonthRange(ref).value.1);
  }

  /** `get_month_weeks(ref)`: while the Monday `cur` is not past the month's
      last day, one week is appended and `cur` moves on seven days. */
  method GetMonthWeeks(ref: Day) returns (weeks: Option<seq<Week>>)
    ensures weeks == MonthWeeks(ref)
  {
    var range := MonthRange(ref);
    if range.None? {
      return None;
    }
    MonthWeeksFromRange(ref);
    var ws := CollectWeeks(MondayOnOrBefore(range.value.0), range.value.1);
    weeks := Some(ws);
  }

  /** The loop of `get_month_weeks`: one window
      `[cur, cur + 6]` per step, the next starting at `cur + 7`. */
  method CollectWeeks(first: int, last: int) returns (ws: seq<Week>)
    requires 1 <= first && last + 6 <= MaxOrdinal
    ensures ws == WeeksFrom(first, last)
  {
    ws := [];
    var cur := first;
    while cur <= last
      invariant 1 <= cur
      invariant ws + WeeksFrom(cur, last) == WeeksFrom(first, last)
      decreases last - cur + 7
    {
      var wEnd := cur + 6;
      assert WeeksFrom(cur, last) == [Week(cur, wEnd)] + WeeksFrom(cur + 7, last);
      ws := ws + [Week(cur, wEnd)];
      cur := cur + 7;
    }
    assert ws == ws + WeeksFrom(cur, last);
  }

}
