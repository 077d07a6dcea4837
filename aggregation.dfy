/** The aggregation engine of the app over the logs table: the inclusive
    date window, minutes per student and subject, the per-staff breakdown
    shown on a student's card and the team-wide summary row. A log row is
    the row as `get_logs` hands it over, its cells already coerced. */
module Aggregation {
  import opened Wrappers
  import opened Calendar

  /** One row of the logs table after `get_logs`: `NaN` ids and `NaT` dates
      are `None`, minutes are whole numbers. */
  datatype LogRow = LogRow(
    id: Option<int>,
    studentId: Option<int>,
    subject: string,
    staff: string,
    minutes: int,
    date: Option<Day>,
    note: string)

  // ---------------------------------------------------------------------
  // Boolean masks and sums over rows

  /** The rows satisfying `p`, in their order: a boolean mask applied to a frame. */
  function Filter(rows: seq<LogRow>, p: LogRow -> bool): seq<LogRow>
  {
    if rows == [] then [] else (if p(rows[0]) then [rows[0]] else []) + Filter(rows[1..], p)
  }

  /** A mask keeps exactly the rows that satisfy it, and no more rows than
      there are. */
  lemma {:induction false} FilterMembers(rows: seq<LogRow>, p: LogRow -> bool)
    ensures |Filter(rows, p)| <= |rows|
    ensures forall x :: x in Filter(rows, p) <==> x in rows && p(x)
  {
    if rows != [] {
      FilterMembers(rows[1..], p);
      assert rows == [rows[0]] + rows[1..];
    }
  }

  /** The sum of the minutes column of `rows` (0 for no rows). */
  function Minutes(rows: seq<LogRow>): int
  {
    if rows == [] then 0 else rows[0].minutes + Minutes(rows[1..])
  }

  /** A reference for masked sums, in one pass: the minutes of the rows
      satisfying `p`, added up as they come. */
  function SumWhere(rows: seq<LogRow>, p: LogRow -> bool): int
  {
    if rows == [] then 0 else (if p(rows[0]) then rows[0].minutes else 0) + SumWhere(rows[1..], p)
  }

  /** Every row has a non-negative number of minutes. */
  predicate NonNegative(rows: seq<LogRow>)
  {
    forall r :: r in rows ==> r.minutes >= 0
  }

  lemma {:induction false} FilterAppend(a: seq<LogRow>, b: seq<LogRow>, p: LogRow -> bool)
    ensures Filter(a + b, p) == Filter(a, p) + Filter(b, p)
  {
    if a == [] {
      assert a + b == b;
    } else {
      assert (a + b)[0] == a[0] && (a + b)[1..] == a[1..] + b;
      FilterAppend(a[1..], b, p);
      var head := if p(a[0]) then [a[0]] else [];
      assert Filter(a + b, p) == head + (Filter(a[1..], p) + Filter(b, p));
      assert Filter(a, p) == head + Filter(a[1..], p);
    }
  }

  lemma {:induction false} MinutesAppend(a: seq<LogRow>, b: seq<LogRow>)
    ensures Minutes(a + b) == Minutes(a) + Minutes(b)
  {
    if a == [] {
      assert a + b == b;
    } else {
      assert (a + b)[0] == a[0] && (a + b)[1..] == a[1..] + b;
      MinutesAppend(a[1..], b);
    }
  }

  /** Summing a masked selection is the one-pass masked sum. */
  lemma {:induction false} MinutesOfFilter(rows: seq<LogRow>, p: LogRow -> bool)
    ensures Minutes(Filter(rows, p)) == SumWhere(rows, p)
  {
    if rows != [] {
      MinutesOfFilter(rows[1..], p);
      MinutesAppend(if p(rows[0]) then [rows[0]] else [], Filter(rows[1..], p));
    }
  }

  lemma {:induction false} SumWhereAppend(a: seq<LogRow>, b: seq<LogRow>, p: LogRow -> bool)
    ensures SumWhere(a + b, p) == SumWhere(a, p) + SumWhere(b, p)
  {
    if a == [] {
      assert a + b == b;
    } else {
      assert (a + b)[0] == a[0] && (a + b)[1..] == a[1..] + b;
      SumWhereAppend(a[1..], b, p);
    }
  }

  /** Two masks applied one after the other are their conjunction. */
  lemma {:induction false} FilterBoth(rows: seq<LogRow>, p: LogRow -> bool, q: LogRow -> bool, pq: LogRow -> bool)
    requires forall x :: pq(x) == (p(x) && q(x))
    ensures Filter(Filter(rows, p), q) == Filter(rows, pq)
  {
    if rows != [] {
      FilterBoth(rows[1..], p, q, pq);
      FilterAppend(if p(rows[0]) then [rows[0]] else [], Filter(rows[1..], p), q);
    }
  }

  /** Masks that agree on every row select the same rows. */
  lemma {:induction false} FilterSame(rows: seq<LogRow>, p: LogRow -> bool, q: LogRow -> bool)
    requires forall x :: p(x) == q(x)
    ensures Filter(rows, p) == Filter(rows, q)
  {
    if rows != [] {
      FilterSame(rows[1..], p, q);
    }
  }

  /** A mask keeping every row keeps them all. */
  lemma {:induction false} FilterKeepsAll(rows: seq<LogRow>, p: LogRow -> bool)
    requires forall x :: x in rows ==> p(x)
    ensures Filter(rows, p) == rows
  {
    if rows != [] {
      assert forall x :: x in rows[1..] ==> x in rows;
      FilterKeepsAll(rows[1..], p);
    }
  }

  /** A mask and its negation split the minutes between them. */
  lemma {:induction false} MinutesPartition(rows: seq<LogRow>, p: LogRow -> bool, notP: LogRow -> bool)
    requires forall x :: notP(x) == !p(x)
    ensures Minutes(rows) == Minutes(Filter(rows, p)) + Minutes(Filter(rows, notP))
  {
    MinutesOfFilter(rows, p);
    MinutesOfFilter(rows, notP);
    SumWherePartition(rows, p, notP);
  }

  lemma {:induction false} SumWherePartition(rows: seq<LogRow>, p: LogRow -> bool, notP: LogRow -> bool)
    requires forall x :: notP(x) == !p(x)
    ensures Minutes(rows) == SumWhere(rows, p) + SumWhere(rows, notP)
  {
    if rows != [] {
      SumWherePartition(rows[1..], p, notP);
    }
  }

  lemma {:induction false} MinutesNonNegative(rows: seq<LogRow>)
    ensures NonNegative(rows) ==> Minutes(rows) >= 0
  {
    if rows != [] {
      assert forall x :: x in rows[1..] ==> x in rows;
      MinutesNonNegative(rows[1..]);
    }
  }

  lemma SumWhereNonNegative(rows: seq<LogRow>, p: LogRow -> bool)
    ensures NonNegative(rows) ==> SumWhere(rows, p) >= 0
  {
    MinutesOfFilter(rows, p);
    FilterMembers(rows, p);
    MinutesNonNegative(Filter(rows, p));
  }

  /** With non-negative minutes a selection sums to at most the whole. */
  lemma MinutesOfFilterBounded(rows: seq<LogRow>, p: LogRow -> bool, notP: LogRow -> bool)
    requires forall x :: notP(x) == !p(x)
    requires NonNegative(rows)
    ensures Minutes(Filter(rows, p)) <= Minutes(rows)
  {
    MinutesPartition(rows, p, notP);
    FilterMembers(rows, notP);
    MinutesNonNegative(Filter(rows, notP));
  }

  /** One more row at the end adds its minutes exactly when it is selected. */
  lemma FilterSnoc(rows: seq<LogRow>, x: LogRow, p: LogRow -> bool)
    ensures Minutes(Filter(rows + [x], p)) == Minutes(Filter(rows, p)) + (if p(x) then x.minutes else 0)
  {
    FilterAppend(rows, [x], p);
    MinutesAppend(Filter(rows, p), Filter([x], p));
    assert Filter([x], p) == if p(x) then [x] else [];
  }

  // ---------------------------------------------------------------------
  // The masks the app builds

  /** Dated from `start` to `end`, both ends included; a row whose date did
      not parse compares false on both sides. */
  function InWindow(start: Day, end: Day): LogRow -> bool
  {
    (r: LogRow) => r.date.Some? && start <= r.date.value <= end
  }

  /** The row belongs to student `sid` and subject `subject`;
      a missing student id compares false. */
  function ForStudent(sid: int, subject: string): LogRow -> bool
  {
    (r: LogRow) => r.studentId == Some(sid) && r.subject == subject
  }

  /** A session of student `sid` in `subject` inside the window. */
  function Session(sid: int, subject: string, start: Day, end: Day): LogRow -> bool
  {
    (r: LogRow) => r.studentId == Some(sid) && r.subject == subject && r.date.Some? && start <= r.date.value <= end
  }

  /** The row's staff name is exactly `name`. */
  function ByStaff(name: string): LogRow -> bool
  {
    (r: LogRow) => r.staff == name
  }

  function StaffIn(names: seq<string>): LogRow -> bool
  {
    (r: LogRow) => r.staff in names
  }

  function StaffNotIn(names: seq<string>): LogRow -> bool
  {
    (r: LogRow) => r.staff !in names
  }

  // ---------------------------------------------------------------------
  // logs_in_range and student_minutes

  /** `logs_in_range(logs, start, end)`: exactly the rows dated from `start`
      to `end`, both ends included; a row whose date did not parse is dropped,
      and an empty table is returned as it is. */
  function LogsInRange(logs: seq<LogRow>, start: Day, end: Day): (r: seq<LogRow>)
    ensures |r| <= |logs|
    ensures forall x :: x in r <==> x in logs && x.date.Some? && start <= x.date.value <= end
  {
    FilterMembers(logs, InWindow(start, end));
    if logs == [] then logs else Filter(logs, InWindow(start, end))
  }

  /** A mask keeps every satisfying row as often as it occurs, and drops
      every other row. */
  lemma {:induction false} FilterCounts(rows: seq<LogRow>, p: LogRow -> bool)
    ensures forall x :: multiset(Filter(rows, p))[x] == if p(x) then multiset(rows)[x] else 0
  {
    if rows != [] {
      FilterCounts(rows[1..], p);
      assert rows == [rows[0]] + rows[1..];
    }
  }

  /** `logs_in_range` keeps each row dated in the window exactly as often as
      it occurs in the table, and no other row. */
  lemma LogsInRangeCounts(logs: seq<LogRow>, start: Day, end: Day)
    ensures forall x :: multiset(LogsInRange(logs, start, end))[x] == if InWindow(start, end)(x) then multiset(logs)[x] else 0
  {
    FilterCounts(logs, InWindow(start, end));
  }

  /** `logs_in_range` is a mask on the rows whatever the table. */
  lemma LogsInRangeIsFilter(logs: seq<LogRow>, start: Day, end: Day)
    ensures LogsInRange(logs, start, end) == Filter(logs, InWindow(start, end))
  {
  }

  /** Narrowing a window twice is taking the intersection of the windows;
      in particular filtering to a window is idempotent. */
  lemma {:induction false} LogsInRangeTwice(logs: seq<LogRow>, s1: Day, e1: Day, s2: Day, e2: Day)
    ensures LogsInRange(LogsInRange(logs, s1, e1), s2, e2)
         == LogsInRange(logs, if s1 < s2 then s2 else s1, if e1 < e2 then e1 else e2)
  {
    var s: Day := if s1 < s2 then s2 else s1;
    var e: Day := if e1 < e2 then e1 else e2;
    LogsInRangeIsFilter(LogsInRange(logs, s1, e1), s2, e2);
    LogsInRangeIsFilter(logs, s1, e1);
    FilterBoth(logs, InWindow(s1, e1), InWindow(s2, e2), InWindow(s, e));
  }

  /** Windows distribute over a table given in two parts. */
  lemma LogsInRangeAppend(a: seq<LogRow>, b: seq<LogRow>, start: Day, end: Day)
    ensures LogsInRange(a + b, start, end) == LogsInRange(a, start, end) + LogsInRange(b, start, end)
  {
    FilterAppend(a, b, InWindow(start, end));
  }

  /** `student_minutes(logs, sid, subject, start, end)`. */
  function StudentMinutes(logs: seq<LogRow>, sid: int, subject: string, start: Day, end: Day): (total: int)
    ensures NonNegative(logs) ==> total >= 0
  {
    var subset := LogsInRange(logs, start, end);
    FilterMembers(subset, ForStudent(sid, subject));
    MinutesNonNegative(Filter(subset, ForStudent(sid, subject)));
    if subset == [] then 0 else Minutes(Filter(subset, ForStudent(sid, subject)))
  }

  /** `student_minutes` is the one-pass sum of the minutes of the student's
      sessions in the subject inside the window. */
  lemma StudentMinutesIsSessionSum(logs: seq<LogRow>, sid: int, subject: string, start: Day, end: Day)
    ensures StudentMinutes(logs, sid, subject, start, end) == SumWhere(logs, Session(sid, subject, start, end))
  {
    FilterBoth(logs, InWindow(start, end), ForStudent(sid, subject), Session(sid, subject, start, end));
    MinutesOfFilter(logs, Session(sid, subject, start, end));
  }

  /** No matching session, no minutes. */
  lemma {:induction false} SumWhereNone(rows: seq<LogRow>, p: LogRow -> bool)
    requires forall x :: x in rows ==> !p(x)
    ensures SumWhere(rows, p) == 0
  {
    if rows != [] {
      assert forall x :: x in rows[1..] ==> x in rows;
      SumWhereNone(rows[1..], p);
    }
  }

  lemma StudentMinutesNoSession(logs: seq<LogRow>, sid: int, subject: string, start: Day, end: Day)
    requires forall r :: r in logs ==> !Session(sid, subject, start, end)(r)
    ensures StudentMinutes(logs, sid, subject, start, end) == 0
  {
    StudentMinutesIsSessionSum(logs, sid, subject, start, end);
    SumWhereNone(logs, Session(sid, subject, start, end));
  }

  /** Minutes logged in two parts of the table add up. */
  lemma StudentMinutesAppend(a: seq<LogRow>, b: seq<LogRow>, sid: int, subject: string, start: Day, end: Day)
    ensures StudentMinutes(a + b, sid, subject, start, end)
         == StudentMinutes(a, sid, subject, start, end) + StudentMinutes(b, sid, subject, start, end)
  {
    StudentMinutesIsSessionSum(a + b, sid, subject, start, end);
    StudentMinutesIsSessionSum(a, sid, subject, start, end);
    StudentMinutesIsSessionSum(b, sid, subject, start, end);
    SumWhereAppend(a, b, Session(sid, subject, start, end));
  }

  // ---------------------------------------------------------------------
  // staff_breakdown

  predicate Distinct(s: seq<string>)
  {
    forall i, j :: 0 <= i < j < |s| ==> s[i] != s[j]
  }

  /** The keys of a dict built from `names` in insertion order: each name
      once, where it first occurs. */
  function Dedup(names: seq<string>): (r: seq<string>)
    ensures Distinct(r)
    ensures forall x :: x in r <==> x in names
  {
    if names == [] then []
    else
      var r := Dedup(names[..|names| - 1]);
      var x := names[|names| - 1];
      assert forall y :: y in names <==> y in names[..|names| - 1] || y == x by {
        assert names == names[..|names| - 1] + [x];
      }
      if x in r then r else r + [x]
  }

  /** The rows of the window that belong to student `sid` and `subject`. */
  function SessionRows(logs: seq<LogRow>, sid: int, subject: string, start: Day, end: Day): seq<LogRow>
  {
    Filter(LogsInRange(logs, start, end), ForStudent(sid, subject))
  }

  /** `staff_breakdown(...)` as a value: `{name: 0 for name in roster}`, then
      each session's minutes added to its staff member's entry when that
      member is on the roster. */
  function Breakdown(logs: seq<LogRow>, sid: int, subject: string, start: Day, end: Day, roster: seq<string>): (bd: map<string, int>)
    ensures bd.Keys == set n | n in roster
  {
    var inWindow := LogsInRange(logs, start, end);
    map n | n in roster ::
      if inWindow == [] then 0 else Minutes(Filter(SessionRows(logs, sid, subject, start, end), ByStaff(n)))
  }

  /** The session rows are exactly the student's sessions in the subject
      inside the window. */
  lemma SessionRowsMembers(logs: seq<LogRow>, sid: int, subject: string, start: Day, end: Day)
    ensures forall x :: x in SessionRows(logs, sid, subject, start, end) <==>
      x in logs && Session(sid, subject, start, end)(x)
  {
    FilterBoth(logs, InWindow(start, end), ForStudent(sid, subject), Session(sid, subject, start, end));
    FilterMembers(logs, Session(sid, subject, start, end));
  }

  /** Every roster member's entry is the one-pass sum of the sessions that
      member gave. */
  lemma BreakdownEntry(logs: seq<LogRow>, sid: int, subject: string, start: Day, end: Day, roster: seq<string>, n: string)
    requires n in roster
    ensures Breakdown(logs, sid, subject, start, end, roster)[n]
         == SumWhere(logs, StaffSession(sid, subject, start, end, n))
  {
    var rows := SessionRows(logs, sid, subject, start, end);
    FilterBoth(logs, InWindow(start, end), ForStudent(sid, subject), Session(sid, subject, start, end));
    FilterBoth(logs, Session(sid, subject, start, end), ByStaff(n), StaffSession(sid, subject, start, end, n));
    MinutesOfFilter(logs, StaffSession(sid, subject, start, end, n));
  }

  /** A session of student `sid` in `subject`, dated from `start` to `end`,
      given by staff member `n`. */
  function StaffSession(sid: int, subject: string, start: Day, end: Day, n: string): LogRow -> bool
  {
    (r: LogRow) => r.studentId == Some(sid) && r.subject == subject && r.date.Some? && start <= r.date.value <= end && r.staff == n
  }

  /** The minutes of the first `i` rows with staff name `n`, added up row
      by row as the loop of `staff_breakdown` does. */
  function StaffTally(rows: seq<LogRow>, i: int, n: string): int
    requires 0 <= i <= |rows|
  {
    if i == 0 then 0 else StaffTally(rows, i - 1, n) + (if rows[i - 1].staff == n then rows[i - 1].minutes else 0)
  }

  /** The running tally is the masked sum over the rows seen so far. */
  lemma {:induction false} StaffTallyIsMinutes(rows: seq<LogRow>, i: int, n: string)
    requires 0 <= i <= |rows|
    ensures StaffTally(rows, i, n) == Minutes(Filter(rows[..i], ByStaff(n)))
  {
    if i > 0 {
      StaffTallyIsMinutes(rows, i - 1, n);
      assert rows[..i] == rows[..i - 1] + [rows[i - 1]];
      FilterSnoc(rows[..i - 1], rows[i - 1], ByStaff(n));
    }
  }

  /** `staff_breakdown`: the dict initialised to 0 for every roster name, the
      early return for an empty window, and the row loop adding minutes to
      rostered names. */
  method StaffBreakdown(logs: seq<LogRow>, sid: int, subject: string, start: Day, end: Day, roster: seq<string>)
    returns (result: map<string, int>)
    ensures result == Breakdown(logs, sid, subject, start, end, roster)
  {
    result := ZeroBuckets(roster);
    var subset := LogsInRange(logs, start, end);
    if subset == [] {
      BreakdownFromEntries(result, logs, sid, subject, start, end, roster);
      return;
    }
    var rows := SessionRows(logs, sid, subject, start, end);
    result := TallyByStaff(rows, result);
    BreakdownFromEntries(result, logs, sid, subject, start, end, roster);
  }

  /** `{name: 0 for name in roster}`. */
  method ZeroBuckets(roster: seq<string>) returns (m: map<string, int>)
    ensures m.Keys == set n | n in roster
    ensures forall n :: n in m ==> m[n] == 0
  {
    m := map[];
    var k := 0;
    while k < |roster|
      invariant 0 <= k <= |roster|
      invariant m.Keys == set n | n in roster[..k]
      invariant forall n :: n in m ==> m[n] == 0
    {
      assert roster[..k + 1] == roster[..k] + [roster[k]];
      m := m[roster[k] := 0];
      k := k + 1;
    }
    assert roster[..k] == roster;
  }

  /** The row loop of `staff_breakdown`: each row's minutes go to its staff
      member's entry when that member is a key. Starting from zeros, each
      entry ends as the minutes of the rows with that staff name. */
  method TallyByStaff(rows: seq<LogRow>, m0: map<string, int>) returns (m: map<string, int>)
    requires forall n :: n in m0 ==> m0[n] == 0
    ensures m.Keys == m0.Keys
    ensures forall n :: n in m ==> m[n] == Minutes(Filter(rows, ByStaff(n)))
  {
    m := m0;
    var i := 0;
    while i < |rows|
      invariant 0 <= i <= |rows|
      invariant m.Keys == m0.Keys
      invariant forall n :: n in m ==> m[n] == StaffTally(rows, i, n)
    {
      var row := rows[i];
      if row.staff in m {
        m := m[row.staff := m[row.staff] + row.minutes];
      }
      i := i + 1;
    }
    forall n | n in m
      ensures m[n] == Minutes(Filter(rows, ByStaff(n)))
    {
      StaffTallyIsMinutes(rows, |rows|, n);
      assert rows[..|rows|] == rows;
    }
  }

  /** A dict with the roster's names as keys and the breakdown's entries as
      values is the breakdown. */
  lemma BreakdownFromEntries(m: map<string, int>, logs: seq<LogRow>, sid: int, subject: string, start: Day, end: Day, roster: seq<string>)
    requires m.Keys == set n | n in roster
    requires forall n :: n in m ==>
      m[n] == if LogsInRange(logs, start, end) == [] then 0
              else Minutes(Filter(SessionRows(logs, sid, subject, start, end), ByStaff(n)))
    ensures m == Breakdown(logs, sid, subject, start, end, roster)
  {
  }

  /** `sum(d.values())` for a dict whose keys, in order, are `keys`. */
  function SumOver(m: map<string, int>, keys: seq<string>): int
    requires forall k :: k in keys ==> k in m
  {
    if keys == [] then 0 else m[keys[0]] + SumOver(m, keys[1..])
  }

  /** Adding up per-name entries over distinct names is summing the rows
      whose staff is one of those names. */
  lemma {:induction false} SumOverStaff(m: map<string, int>, keys: seq<string>, rows: seq<LogRow>)
    requires Distinct(keys)
    requires forall k :: k in keys ==> k in m && m[k] == Minutes(Filter(rows, ByStaff(k)))
    ensures SumOver(m, keys) == Minutes(Filter(rows, StaffIn(keys)))
  {
    if keys == [] {
      FilterNoStaff(rows);
    } else {
      var rest := keys[1..];
      assert Distinct(rest);
      assert forall k :: k in rest ==> k in keys;
      SumOverStaff(m, rest, rows);
      forall j | 0 <= j < |rest|
        ensures rest[j] != keys[0]
      {
        assert rest[j] == keys[j + 1];
      }
      MinutesStaffSplit(rows, keys[0], rest);
      FilterSame(rows, StaffIn(keys), StaffIn([keys[0]] + rest));
      assert keys == [keys[0]] + rest;
    }
  }

  lemma FilterNoStaff(rows: seq<LogRow>)
    ensures Minutes(Filter(rows, StaffIn([]))) == 0
  {
    MinutesOfFilter(rows, StaffIn([]));
    SumWhereNone(rows, StaffIn([]));
  }

  /** The rows of one more (new) name add that name's minutes. */
  lemma {:induction false} MinutesStaffSplit(rows: seq<LogRow>, k: string, rest: seq<string>)
    requires k !in rest
    ensures Minutes(Filter(rows, StaffIn([k] + rest)))
         == Minutes(Filter(rows, ByStaff(k))) + Minutes(Filter(rows, StaffIn(rest)))
  {
    MinutesOfFilter(rows, StaffIn([k] + rest));
    MinutesOfFilter(rows, ByStaff(k));
    MinutesOfFilter(rows, StaffIn(rest));
    SumWhereStaffSplit(rows, k, rest);
  }

  lemma {:induction false} SumWhereStaffSplit(rows: seq<LogRow>, k: string, rest: seq<string>)
    requires k !in rest
    ensures SumWhere(rows, StaffIn([k] + rest)) == SumWhere(rows, ByStaff(k)) + SumWhere(rows, StaffIn(rest))
  {
    if rows != [] {
      SumWhereStaffSplit(rows[1..], k, rest);
    }
  }

  /** `sum(staff_breakdown(...).values())`: the total a student's card shows. */
  function BreakdownTotal(logs: seq<LogRow>, sid: int, subject: string, start: Day, end: Day, roster: seq<string>): int
  {
    SumOver(Breakdown(logs, sid, subject, start, end, roster), Dedup(roster))
  }

  /** The breakdown's total is the sum over the student's sessions in the
      window whose staff member is on the roster; sessions by anyone else
      count in no bucket. */
  lemma BreakdownTotalIsRostered(logs: seq<LogRow>, sid: int, subject: string, start: Day, end: Day, roster: seq<string>)
    ensures BreakdownTotal(logs, sid, subject, start, end, roster)
         == Minutes(Filter(SessionRows(logs, sid, subject, start, end), StaffIn(roster)))
  {
    var bd := Breakdown(logs, sid, subject, start, end, roster);
    var rows := SessionRows(logs, sid, subject, start, end);
    var keys := Dedup(roster);
    if LogsInRange(logs, start, end) == [] {
      assert rows == [];
      forall k | k in keys
        ensures bd[k] == Minutes(Filter(rows, ByStaff(k)))
      {
      }
    }
    SumOverStaff(bd, keys, rows);
    FilterSame(rows, StaffIn(keys), StaffIn(roster));
  }

  /** A session of student `sid` in `subject` inside the window given by a
      staff member on the roster. */
  function RosteredSession(sid: int, subject: string, start: Day, end: Day, roster: seq<string>): LogRow -> bool
  {
    (r: LogRow) => r.studentId == Some(sid) && r.subject == subject && r.date.Some? && start <= r.date.value <= end
      && r.staff in roster
  }

  /** The breakdown's total as a one-pass sum over the table. */
  lemma BreakdownTotalIsSum(logs: seq<LogRow>, sid: int, subject: string, start: Day, end: Day, roster: seq<string>)
    ensures BreakdownTotal(logs, sid, subject, start, end, roster)
         == SumWhere(logs, RosteredSession(sid, subject, start, end, roster))
  {
    BreakdownTotalIsRostered(logs, sid, subject, start, end, roster);
    FilterBoth(logs, InWindow(start, end), ForStudent(sid, subject), Session(sid, subject, start, end));
    FilterBoth(logs, Session(sid, subject, start, end), StaffIn(roster), RosteredSession(sid, subject, start, end, roster));
    MinutesOfFilter(logs, RosteredSession(sid, subject, start, end, roster));
  }

  /** With non-negative minutes, the card's total never exceeds
      `student_minutes` for the same student, subject and window, and it
      equals it when every such session was given by a rostered staff member. */
  lemma BreakdownTotalVersusStudentMinutes(logs: seq<LogRow>, sid: int, subject: string, start: Day, end: Day, roster: seq<string>)
    ensures NonNegative(logs) ==>
      BreakdownTotal(logs, sid, subject, start, end, roster) <= StudentMinutes(logs, sid, subject, start, end)
    ensures (forall r :: r in logs && Session(sid, subject, start, end)(r) ==> r.staff in roster) ==>
      BreakdownTotal(logs, sid, subject, start, end, roster) == StudentMinutes(logs, sid, subject, start, end)
  {
    var rows := SessionRows(logs, sid, subject, start, end);
    BreakdownTotalIsRostered(logs, sid, subject, start, end, roster);
    assert StudentMinutes(logs, sid, subject, start, end) == Minutes(rows);
    SessionRowsMembers(logs, sid, subject, start, end);
    if NonNegative(logs) {
      MinutesOfFilterBounded(rows, StaffIn(roster), StaffNotIn(roster));
    }
    if forall r :: r in logs && Session(sid, subject, start, end)(r) ==> r.staff in roster {
      FilterKeepsAll(rows, StaffIn(roster));
    }
  }

  // ---------------------------------------------------------------------
  // render_summary_row

  /** The figures of the summary row: one per roster entry, in roster
      order, and the grand total. */
  datatype Summary = Summary(perStaff: seq<int>, grandTotal: int)

  /** The arithmetic of `render_summary_row(label, logs, roster, start, end)`. */
  function SummaryFigures(logs: seq<LogRow>, roster: seq<string>, start: Day, end: Day): (s: Summary)
    ensures |s.perStaff| == |roster|
  {
    var subset := LogsInRange(logs, start, end);
    Summary(
      seq(|roster|, i requires 0 <= i < |roster| =>
        if subset == [] then 0 else Minutes(Filter(subset, ByStaff(roster[i])))),
      if subset == [] then 0 else Minutes(subset))
  }

  /** The grand total is the sum over every row in the window, whatever the
      student, subject or staff member; it is 0 for an empty window. */
  lemma SummaryGrandTotal(logs: seq<LogRow>, roster: seq<string>, start: Day, end: Day)
    ensures SummaryFigures(logs, roster, start, end).grandTotal == SumWhere(logs, InWindow(start, end))
  {
    MinutesOfFilter(logs, InWindow(start, end));
  }

  /** A staff member's figure is the sum over the window's rows carrying
      exactly that name. */
  lemma SummaryStaffFigure(logs: seq<LogRow>, roster: seq<string>, start: Day, end: Day, i: nat)
    requires i < |roster|
    ensures SummaryFigures(logs, roster, start, end).perStaff[i]
         == SumWhere(logs, StaffWindow(roster[i], start, end))
  {
    FilterBoth(logs, InWindow(start, end), ByStaff(roster[i]), StaffWindow(roster[i], start, end));
    MinutesOfFilter(logs, StaffWindow(roster[i], start, end));
  }

  /** A row of staff member `n` inside the window. */
  function StaffWindow(n: string, start: Day, end: Day): LogRow -> bool
  {
    (r: LogRow) => r.staff == n && r.date.Some? && start <= r.date.value <= end
  }

  /** The grand total splits into the figures of the distinct roster
      members and the minutes of unrostered staff. */
  lemma SummarySplitsByStaff(logs: seq<LogRow>, roster: seq<string>, start: Day, end: Day)
    ensures var s := SummaryFigures(logs, roster, start, end);
      var subset := LogsInRange(logs, start, end);
      s.grandTotal == SumOver(StaffFigures(logs, roster, start, end), Dedup(roster))
                    + Minutes(Filter(subset, StaffNotIn(roster)))
  {
    var subset := LogsInRange(logs, start, end);
    var m := StaffFigures(logs, roster, start, end);
    var keys := Dedup(roster);
    SumOverStaff(m, keys, subset);
    FilterSame(subset, StaffIn(keys), StaffIn(roster));
    MinutesPartition(subset, StaffIn(roster), StaffNotIn(roster));
  }

  /** The staff figures of the summary row keyed by name. */
  function StaffFigures(logs: seq<LogRow>, roster: seq<string>, start: Day, end: Day): map<string, int>
  {
    map n | n in roster :: Minutes(Filter(LogsInRange(logs, start, end), ByStaff(n)))
  }
}
