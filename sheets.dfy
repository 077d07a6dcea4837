/** The record store behind the app: the three worksheets of the spreadsheet
    ("staff", "students", "logs") held as sequences of rows. The header row
    is not stored, so data row `i` is worksheet row `i + 2`. This module
    holds the table operations of `SheetsDB` and the coercion `get_logs` and
    `get_students` apply to the cells they read. */
module Sheets {
  import opened Wrappers
  import opened Calendar
  import opened Cells
  import opened Aggregation
  import opened Goals

  /** A row of the "staff" worksheet: id, name, color. */
  datatype StaffRecord = StaffRecord(id: Cell, name: string, color: string)

  /** A row of the "students" worksheet: id, name, grade, active_subject,
      goal_math, goal_english, goal_task_completion. */
  datatype StudentRecord = StudentRecord(
    id: Cell,
    name: string,
    grade: string,
    activeSubject: Cell,
    goalMath: Cell,
    goalEnglish: Cell,
    goalTaskCompletion: Cell)

  /** A row of the "logs" worksheet: id, student_id, subject, staff,
      minutes, date, note; `None` is a note the record does not have. */
  datatype LogRecord = LogRecord(
    id: Cell,
    studentId: Cell,
    subject: string,
    staff: string,
    minutes: Cell,
    date: Cell,
    note: Option<string>)

  function StaffIds(rows: seq<StaffRecord>): seq<Cell>
  {
    seq(|rows|, i requires 0 <= i < |rows| => rows[i].id)
  }

  function StudentIds(rows: seq<StudentRecord>): seq<Cell>
  {
    seq(|rows|, i requires 0 <= i < |rows| => rows[i].id)
  }

  function LogIds(rows: seq<LogRecord>): seq<Cell>
  {
    seq(|rows|, i requires 0 <= i < |rows| => rows[i].id)
  }

  // ---------------------------------------------------------------------
  // _next_id and _find_row

  /** `_next_id`: 1 for a table without records, otherwise one more than
      the largest id; `None` where `int(id)` raises on some id cell. */
  function NextId(ids: seq<Cell>): (r: Option<int>)
    ensures ids == [] ==> r == Some(1)
    ensures r.None? <==> exists i :: 0 <= i < |ids| && IntValue(ids[i]).None?
    ensures r.Some? ==> forall i :: 0 <= i < |ids| ==> IntValue(ids[i]).value < r.value
    ensures r.Some? && ids != [] ==> exists i :: 0 <= i < |ids| && r.value == IntValue(ids[i]).value + 1
  {
    if ids == [] then Some(1)
    else match IntValue(ids[0])
      case None => None
      case Some(v) =>
        if |ids| == 1 then Some(v + 1)
        else match NextId(ids[1..])
          case None =>
            assert exists i :: 0 <= i < |ids[1..]| && IntValue(ids[1..][i]).None?;
            None
          case Some(n) =>
            if v + 1 >= n then Some(v + 1)
            else
              assert exists i :: 0 <= i < |ids[1..]| && n == IntValue(ids[1..][i]).value + 1;
              Some(n)
  }

  /** Record `i` of `column` is the first whose value equals `value` when
      both are written as strings. */
  predicate FirstMatch(column: seq<Cell>, value: Cell, i: int)
  {
    0 <= i < |column| && Str(column[i]) == Str(value)
    && forall j :: 0 <= j < i ==> Str(column[j]) != Str(value)
  }

  /** The worksheet row `_find_row` reports for `value` in `column`: the
      first record equal to it as a string, plus 2 for the header and the
      1-based numbering; `None` when no record matches. */
  function RowOf(column: seq<Cell>, value: Cell): (row: Option<int>)
    ensures row.Some? ==> 2 <= row.value < |column| + 2
  {
    if column == [] then None
    else if Str(column[0]) == Str(value) then Some(2)
    else Later(RowOf(column[1..], value), 1)
  }

  /** A row number found in a suffix, counted from the start. */
  function Later(row: Option<int>, skipped: int): Option<int>
  {
    if row.None? then None else Some(row.value + skipped)
  }

  /** `_find_row` reports the first match, and `None` exactly when nothing
      matches. */
  lemma {:induction false} RowOfMeaning(column: seq<Cell>, value: Cell)
    ensures RowOf(column, value).None? <==> forall i :: 0 <= i < |column| ==> Str(column[i]) != Str(value)
    ensures RowOf(column, value).Some? ==> FirstMatch(column, value, RowOf(column, value).value - 2)
  {
    if column != [] && Str(column[0]) != Str(value) {
      var rest := column[1..];
      RowOfMeaning(rest, value);
      if RowOf(rest, value).None? {
        forall i | 0 <= i < |column|
          ensures Str(column[i]) != Str(value)
        {
          if i > 0 {
            assert column[i] == rest[i - 1];
          }
        }
      } else {
        var k := RowOf(rest, value).value - 2;
        assert column[k + 1] == rest[k];
        forall j | 0 <= j < k + 1
          ensures Str(column[j]) != Str(value)
        {
          if j > 0 {
            assert column[j] == rest[j - 1];
          }
        }
        assert FirstMatch(column, value, k + 1);
      }
    }
  }

  /** There is only one first match. */
  lemma FirstMatchUnique(column: seq<Cell>, value: Cell, i: int, j: int)
    requires FirstMatch(column, value, i) && FirstMatch(column, value, j)
    ensures i == j
  {
  }

  /** The row `RowOf` reports is the one first match, and there is none
      when it reports `None`. */
  lemma FirstMatchAt(column: seq<Cell>, value: Cell)
    ensures RowOf(column, value).None? ==> forall i :: !FirstMatch(column, value, i)
    ensures RowOf(column, value).Some? ==>
      forall i :: FirstMatch(column, value, i) <==> i == RowOf(column, value).value - 2
  {
    RowOfMeaning(column, value);
    if RowOf(column, value).Some? {
      forall i | FirstMatch(column, value, i)
        ensures i == RowOf(column, value).value - 2
      {
        FirstMatchUnique(column, value, i, RowOf(column, value).value - 2);
      }
    }
  }

  /** `_find_row`: the search loop over the records. */
  method FindRow(column: seq<Cell>, value: Cell) returns (row: Option<int>)
    ensures row == RowOf(column, value)
  {
    var target := Str(value);
    var i := 0;
    while i < |column|
      invariant 0 <= i <= |column|
      invariant RowOf(column, value) == Later(RowOf(column[i..], value), i)
    {
      RowOfStep(column, value, i);
      if Str(column[i]) == target {
        return Some(i + 2);
      }
      i := i + 1;
    }
    return None;
  }

  /** One step of the search: the record at `i` matches, or the search
      goes on after it. */
  lemma RowOfStep(column: seq<Cell>, value: Cell, i: int)
    requires 0 <= i < |column|
    ensures RowOf(column[i..], value)
         == if Str(column[i]) == Str(value) then Some(2) else Later(RowOf(column[i + 1..], value), 1)
  {
    assert column[i..][1..] == column[i + 1..];
  }

  /** On a column of numeric ids, looking up a number finds the first
      record holding that very number. */
  lemma RowOfNumericIds(column: seq<Cell>, k: int)
    requires forall i :: 0 <= i < |column| ==> column[i].Int?
    ensures RowOf(column, Int(k)).None? <==> Int(k) !in column
    ensures RowOf(column, Int(k)).Some? ==>
      var i := RowOf(column, Int(k)).value - 2;
      column[i] == Int(k) && Int(k) !in column[..i]
  {
    RowOfMeaning(column, Int(k));
    forall i | 0 <= i < |column|
      ensures Str(column[i]) == Str(Int(k)) <==> column[i] == Int(k)
    {
      StrOfIntInjective(column[i].i, k);
    }
    if RowOf(column, Int(k)).Some? {
      var i := RowOf(column, Int(k)).value - 2;
      assert forall j :: 0 <= j < i ==> column[..i][j] == column[j];
    }
  }

  // ---------------------------------------------------------------------
  // update_staff_names

  /** Record `i` is the last staff record whose id is the number `k`. */
  predicate LastHolder(staff: seq<StaffRecord>, k: int, i: int)
  {
    0 <= i < |staff| && staff[i].id == Int(k) && forall j :: i < j < |staff| ==> staff[j].id != Int(k)
  }

  /** The id-to-name map built from the staff records before any rename: the
      numeric ids of the staff table, each with the name of the last record
      holding it. */
  function OldNames(staff: seq<StaffRecord>): map<int, string>
  {
    if staff == [] then map[]
    else
      var last := staff[|staff| - 1];
      var m := OldNames(staff[..|staff| - 1]);
      if last.id.Int? then m[last.id.i := last.name] else m
  }

  /** The old names hold exactly the numeric staff ids, each with the name
      of the last record holding it. */
  lemma {:induction false} OldNamesMeaning(staff: seq<StaffRecord>)
    ensures forall k :: k in OldNames(staff) <==> exists i :: 0 <= i < |staff| && staff[i].id == Int(k)
    ensures forall k :: k in OldNames(staff) ==> exists i :: LastHolder(staff, k, i) && OldNames(staff)[k] == staff[i].name
  {
    if staff != [] {
      var n := |staff| - 1;
      var pre := staff[..n];
      OldNamesMeaning(pre);
      var m := OldNames(staff);
      forall k
        ensures k in m <==> exists i :: 0 <= i < |staff| && staff[i].id == Int(k)
        ensures k in m ==> exists i :: LastHolder(staff, k, i) && m[k] == staff[i].name
      {
        if staff[n].id == Int(k) {
          assert LastHolder(staff, k, n);
        } else {
          assert k in m <==> k in OldNames(pre);
          if k in m {
            var i :| LastHolder(pre, k, i) && OldNames(pre)[k] == pre[i].name;
            assert LastHolder(staff, k, i);
          }
          if exists i :: 0 <= i < |staff| && staff[i].id == Int(k) {
            var i :| 0 <= i < |staff| && staff[i].id == Int(k);
            assert pre[i].id == Int(k);
          }
        }
      }
    }
  }

  /** The name captured for `staffId` before the renames, or "" when the
      map has none. */
  function OldName(names: map<int, string>, staffId: int): string
  {
    if staffId in names then names[staffId] else ""
  }

  /** The rename pass over the logs table: every row whose staff is
      `oldName` now carries `newName`, every other row is as it was, and
      (when the names differ) no row is left with `oldName`. */
  function RenameLogs(logs: seq<LogRecord>, oldName: string, newName: string): (r: seq<LogRecord>)
    ensures |r| == |logs|
    ensures forall i :: 0 <= i < |logs| && logs[i].staff == oldName ==> r[i] == logs[i].(staff := newName)
    ensures forall i :: 0 <= i < |logs| && logs[i].staff != oldName ==> r[i] == logs[i]
    ensures oldName != newName ==> forall i :: 0 <= i < |r| ==> r[i].staff != oldName
  {
    if logs == [] then []
    else [if logs[0].staff == oldName then logs[0].(staff := newName) else logs[0]]
         + RenameLogs(logs[1..], oldName, newName)
  }

  /** What one `(staff_id, new_name)` pair does to the logs table: the log
      pass runs only when the captured old name is non-empty and differs
      from the new one. */
  function RenameStep(logs: seq<LogRecord>, names: map<int, string>, pair: (int, string)): seq<LogRecord>
  {
    var oldName := OldName(names, pair.0);
    if oldName != "" && oldName != pair.1 then RenameLogs(logs, oldName, pair.1) else logs
  }

  /** The logs table after the pairs, applied in order, each to the table
      the previous ones left; the old names are those captured up front. */
  function LogsAfter(logs: seq<LogRecord>, pairs: seq<(int, string)>, names: map<int, string>): seq<LogRecord>
    decreases |pairs|
  {
    if pairs == [] then logs else LogsAfter(RenameStep(logs, names, pairs[0]), pairs[1..], names)
  }

  /** The name cell (column 2) overwritten on the row `_find_row` gives for the
      id: the first record whose id reads as `staffId` gets the new name;
      every other record, and every id and color, is as it was. */
  function RenameStaff(staff: seq<StaffRecord>, staffId: int, newName: string): (r: seq<StaffRecord>)
    ensures |r| == |staff|
    ensures forall i :: 0 <= i < |staff| ==>
      r[i] == if FirstMatch(StaffIds(staff), Int(staffId), i) then staff[i].(name := newName) else staff[i]
  {
    var ids := StaffIds(staff);
    FirstMatchAt(ids, Int(staffId));
    var row := RowOf(ids, Int(staffId));
    if row.None? then staff
    else staff[row.value - 2 := staff[row.value - 2].(name := newName)]
  }

  /** The staff table after the pairs, applied in order. */
  function StaffAfter(staff: seq<StaffRecord>, pairs: seq<(int, string)>): seq<StaffRecord>
    decreases |pairs|
  {
    if pairs == [] then staff else StaffAfter(RenameStaff(staff, pairs[0].0, pairs[0].1), pairs[1..])
  }

  lemma {:induction false} LogsAfterLength(logs: seq<LogRecord>, pairs: seq<(int, string)>, names: map<int, string>)
    ensures |LogsAfter(logs, pairs, names)| == |logs|
    decreases |pairs|
  {
    if pairs != [] {
      LogsAfterLength(RenameStep(logs, names, pairs[0]), pairs[1..], names);
    }
  }

  /** Applying one more pair is one more rename step on the result. */
  lemma {:induction false} LogsAfterSnoc(logs: seq<LogRecord>, pairs: seq<(int, string)>, pair: (int, string), names: map<int, string>)
    ensures LogsAfter(logs, pairs + [pair], names) == RenameStep(LogsAfter(logs, pairs, names), names, pair)
    decreases |pairs|
  {
    if pairs == [] {
      assert pairs + [pair] == [pair];
    } else {
      assert (pairs + [pair])[1..] == pairs[1..] + [pair];
      LogsAfterSnoc(RenameStep(logs, names, pairs[0]), pairs[1..], pair, names);
    }
  }

  /** A log row whose staff is no pair's old name keeps every cell. */
  lemma {:induction false} LogsAfterUntouched(logs: seq<LogRecord>, pairs: seq<(int, string)>, names: map<int, string>, i: int)
    requires 0 <= i < |logs|
    requires forall k :: 0 <= k < |pairs| ==> OldName(names, pairs[k].0) != logs[i].staff
    ensures |LogsAfter(logs, pairs, names)| == |logs|
    ensures LogsAfter(logs, pairs, names)[i] == logs[i]
    decreases |pairs|
  {
    LogsAfterLength(logs, pairs, names);
    if pairs != [] {
      var next := RenameStep(logs, names, pairs[0]);
      assert next[i] == logs[i];
      forall k | 0 <= k < |pairs[1..]|
        ensures OldName(names, pairs[1..][k].0) != next[i].staff
      {
        assert pairs[1..][k] == pairs[k + 1];
      }
      LogsAfterUntouched(next, pairs[1..], names, i);
    }
  }

  /** After all the pairs, no log row carries the last pair's old name
      (when that pass ran). */
  lemma LastOldNameGone(logs: seq<LogRecord>, pairs: seq<(int, string)>, names: map<int, string>)
    requires pairs != []
    requires var last := pairs[|pairs| - 1];
      OldName(names, last.0) != "" && OldName(names, last.0) != last.1
    ensures var last := pairs[|pairs| - 1];
      forall r :: r in LogsAfter(logs, pairs, names) ==> r.staff != OldName(names, last.0)
  {
    var n := |pairs| - 1;
    assert pairs == pairs[..n] + [pairs[n]];
    LogsAfterSnoc(logs, pairs[..n], pairs[n], names);
  }

  /** Renames are sequential: with A -> B followed by B -> C, the rows that
      were A's end up as C's along with B's, and every other row is as it
      was. */
  lemma RenameChain(logs: seq<LogRecord>, names: map<int, string>, idA: int, idB: int, a: string, b: string, c: string)
    requires OldName(names, idA) == a && OldName(names, idB) == b
    requires a != "" && b != "" && a != b && b != c && a != c
    ensures var after := LogsAfter(logs, [(idA, b), (idB, c)], names);
      && |after| == |logs|
      && (forall i :: 0 <= i < |logs| && (logs[i].staff == a || logs[i].staff == b) ==> after[i] == logs[i].(staff := c))
      && (forall i :: 0 <= i < |logs| && logs[i].staff != a && logs[i].staff != b ==> after[i] == logs[i])
  {
    var mid := RenameLogs(logs, a, b);
    assert LogsAfter(logs, [(idA, b), (idB, c)], names) == LogsAfter(mid, [(idB, c)], names);
    assert LogsAfter(mid, [(idB, c)], names) == RenameLogs(mid, b, c);
  }

  /** Swapping two names merges the two staff members' logs: with A -> B and
      B -> A, every row that was A's or B's ends up as A's. */
  lemma RenameSwapMerges(logs: seq<LogRecord>, names: map<int, string>, idA: int, idB: int, a: string, b: string)
    requires OldName(names, idA) == a && OldName(names, idB) == b
    requires a != "" && b != "" && a != b
    ensures var after := LogsAfter(logs, [(idA, b), (idB, a)], names);
      && |after| == |logs|
      && (forall i :: 0 <= i < |logs| && (logs[i].staff == a || logs[i].staff == b) ==> after[i] == logs[i].(staff := a))
      && (forall r :: r in after ==> r.staff != b)
  {
    var mid := RenameLogs(logs, a, b);
    assert LogsAfter(logs, [(idA, b), (idB, a)], names) == LogsAfter(mid, [(idB, a)], names);
    assert LogsAfter(mid, [(idB, a)], names) == RenameLogs(mid, b, a);
  }

  // ---------------------------------------------------------------------
  // get_logs and get_students: coercion of the cells read

  /** One log record as `get_logs` hands it over: non-numeric minutes are
      0, an unparseable date is `NaT`, a missing note is empty, and the ids
      are `NaN` where they do not read as integers. */
  function CoerceLog(rec: LogRecord): (row: LogRow)
    ensures row.id == IntValue(rec.id) && row.studentId == IntValue(rec.studentId)
    ensures row.subject == rec.subject && row.staff == rec.staff
    ensures IntValue(rec.minutes).None? ==> row.minutes == 0
    ensures IntValue(rec.minutes).Some? ==> row.minutes == IntValue(rec.minutes).value
    ensures row.date == DateValue(rec.date)
    ensures rec.note.None? ==> row.note == ""
    ensures rec.note.Some? ==> row.note == rec.note.value
  {
    LogRow(IntValue(rec.id), IntValue(rec.studentId), rec.subject, rec.staff,
           IntValue(rec.minutes).GetOr(0), DateValue(rec.date), rec.note.GetOr(""))
  }

  /** `get_logs`: the logs table, record by record. */
  function GetLogs(raw: seq<LogRecord>): seq<LogRow>
  {
    if raw == [] then [] else [CoerceLog(raw[0])] + GetLogs(raw[1..])
  }

  /** Reading is record by record: one row per record, in order. */
  lemma {:induction false} GetLogsRows(raw: seq<LogRecord>)
    ensures |GetLogs(raw)| == |raw|
    ensures forall i :: 0 <= i < |raw| ==> GetLogs(raw)[i] == CoerceLog(raw[i])
  {
    if raw != [] {
      GetLogsRows(raw[1..]);
    }
  }

  lemma {:induction false} GetLogsAppend(a: seq<LogRecord>, b: seq<LogRecord>)
    ensures GetLogs(a + b) == GetLogs(a) + GetLogs(b)
  {
    if a == [] {
      assert a + b == b;
    } else {
      assert (a + b)[1..] == a[1..] + b;
      GetLogsAppend(a[1..], b);
    }
  }

  /** A record whose minutes cell is numeric and non-negative or not
      numeric at all is read with non-negative minutes. */
  lemma {:induction false} GetLogsNonNegative(raw: seq<LogRecord>)
    requires forall i :: 0 <= i < |raw| ==> IntValue(raw[i].minutes).GetOr(0) >= 0
    ensures NonNegative(GetLogs(raw))
  {
    GetLogsRows(raw);
    forall r | r in GetLogs(raw)
      ensures r.minutes >= 0
    {
      var i :| 0 <= i < |GetLogs(raw)| && GetLogs(raw)[i] == r;
    }
  }

  /** A record whose date does not parse falls in no date window. */
  lemma {:induction false} GetLogsUnparsedDateOutside(raw: seq<LogRecord>, i: int, start: Day, end: Day)
    requires 0 <= i < |raw| && DateValue(raw[i].date).None?
    ensures CoerceLog(raw[i]) in GetLogs(raw)
    ensures CoerceLog(raw[i]) !in LogsInRange(GetLogs(raw), start, end)
  {
    GetLogsRows(raw);
    assert GetLogs(raw)[i] == CoerceLog(raw[i]);
  }

  /** One student record as `get_students` hands it over, its id already
      read as `id`: the active subject as stored, and each non-numeric goal
      cell replaced by 60. */
  function CoerceStudent(rec: StudentRecord, id: int): Student
  {
    Student(id, rec.name, rec.grade, Some(rec.activeSubject),
      map["goal_math" := Int(IntValue(rec.goalMath).GetOr(60)),
          "goal_english" := Int(IntValue(rec.goalEnglish).GetOr(60)),
          "goal_task_completion" := Int(IntValue(rec.goalTaskCompletion).GetOr(60))])
  }

  /** The goal cell of a record for one of the three subjects; any other
      subject reads the Math goal, as `GOAL_COL.get` does. */
  function GoalCell(rec: StudentRecord, subject: string): Cell
  {
    if subject == "English" then rec.goalEnglish
    else if subject == "Task Completion" then rec.goalTaskCompletion
    else rec.goalMath
  }

  /** The goal the app reads for a student it loaded is the number in the
      record's goal cell, or 60 when that cell is not numeric. */
  lemma CoerceStudentGoal(rec: StudentRecord, id: int, subject: string)
    ensures IntValue(GoalCell(rec, subject)).None? ==> SafeGoal(CoerceStudent(rec, id), subject) == 60
    ensures IntValue(GoalCell(rec, subject)).Some? ==>
      SafeGoal(CoerceStudent(rec, id), subject) == IntValue(GoalCell(rec, subject)).value
  {
    var s := CoerceStudent(rec, id);
    assert GoalColumn(subject) in s.goals;
    assert s.goals[GoalColumn(subject)] == Int(IntValue(GoalCell(rec, subject)).GetOr(60));
  }

  /** `get_students`: `None` where the integer conversion of the id column
      raises because some id cell is not an integer; otherwise every record,
      in order. */
  function GetStudents(raw: seq<StudentRecord>): (r: Option<seq<Student>>)
    ensures r.None? <==> exists i :: 0 <= i < |raw| && IntValue(raw[i].id).None?
    ensures r.Some? ==> |r.value| == |raw|
    ensures r.Some? ==> forall i :: 0 <= i < |raw| ==> r.value[i] == CoerceStudent(raw[i], IntValue(raw[i].id).value)
  {
    if raw == [] then Some([])
    else match IntValue(raw[0].id)
      case None => None
      case Some(id) =>
        match GetStudents(raw[1..])
        case None =>
          assert exists i :: 0 <= i < |raw[1..]| && IntValue(raw[1..][i].id).None?;
          None
        case Some(rest) => Some([CoerceStudent(raw[0], id)] + rest)
  }

  // ---------------------------------------------------------------------
  // Ids stay distinct

  /** The ids of a table are integers, no two the same. */
  predicate DistinctIds(ids: seq<Cell>)
  {
    (forall i :: 0 <= i < |ids| ==> IntValue(ids[i]).Some?)
    && forall i, j :: 0 <= i < j < |ids| ==> IntValue(ids[i]) != IntValue(ids[j])
  }

  /** Appending a record with the id `_next_id` gives keeps the ids
      distinct. */
  lemma NextIdKeepsDistinct(ids: seq<Cell>)
    requires DistinctIds(ids)
    ensures NextId(ids).Some?
    ensures DistinctIds(ids + [Int(NextId(ids).value)])
  {
    var n := NextId(ids).value;
    var more := ids + [Int(n)];
    forall i, j | 0 <= i < j < |more|
      ensures IntValue(more[i]) != IntValue(more[j])
    {
      if j == |ids| {
        assert IntValue(more[i]).value < n;
      } else {
        assert more[i] == ids[i] && more[j] == ids[j];
      }
    }
  }

  // ---------------------------------------------------------------------
  // add_student, update_student, update_student_subject, delete_student

  /** The goal given for `subject`, or `default` when none is given. */
  function GoalOr(goals: map<string, int>, subject: string, default: int): int
  {
    if subject in goals then goals[subject] else default
  }

  /** The row `add_student` appends. */
  function NewStudent(id: int, name: string, grade: string, goals: map<string, int>): StudentRecord
  {
    StudentRecord(Int(id), name, grade, Text("Math"),
      Int(GoalOr(goals, "Math", 60)), Int(GoalOr(goals, "English", 90)), Int(GoalOr(goals, "Task Completion", 45)))
  }

  /** Reading a table with one more record reads the record after the
      others. */
  lemma {:induction false} GetStudentsSnoc(raw: seq<StudentRecord>, rec: StudentRecord)
    requires GetStudents(raw).Some? && IntValue(rec.id).Some?
    ensures GetStudents(raw + [rec]) == Some(GetStudents(raw).value + [CoerceStudent(rec, IntValue(rec.id).value)])
  {
    var more := raw + [rec];
    var want := GetStudents(raw).value + [CoerceStudent(rec, IntValue(rec.id).value)];
    assert forall k :: 0 <= k < |raw| ==> more[k] == raw[k];
    assert more[|raw|] == rec;
    assert GetStudents(more).Some?;
    var got := GetStudents(more).value;
    assert |got| == |want|;
    forall k | 0 <= k < |got|
      ensures got[k] == want[k]
    {
      if k < |raw| {
        assert got[k] == CoerceStudent(raw[k], IntValue(raw[k].id).value);
      }
    }
    assert got == want;
  }

  /** The record `add_student` writes reads back with "Math" as active
      subject and the goals given, 60, 90 and 45 standing in for the
      missing ones. */
  lemma NewStudentReadBack(id: int, name: string, grade: string, goals: map<string, int>)
    ensures var s := CoerceStudent(NewStudent(id, name, grade, goals), id);
      && s.id == id && s.name == name && s.grade == grade
      && SafeActiveSubject(s) == "Math"
      && SafeGoal(s, "Math") == GoalOr(goals, "Math", 60)
      && SafeGoal(s, "English") == GoalOr(goals, "English", 90)
      && SafeGoal(s, "Task Completion") == GoalOr(goals, "Task Completion", 45)
  {
    var rec := NewStudent(id, name, grade, goals);
    CoerceStudentGoal(rec, id, "Math");
    CoerceStudentGoal(rec, id, "English");
    CoerceStudentGoal(rec, id, "Task Completion");
  }

  /** A student added with `add_student` reads back after the students
      already there, who read as before, with an id above all of theirs. */
  lemma {:induction false} AddStudentReadBack(raw: seq<StudentRecord>, name: string, grade: string, goals: map<string, int>)
    requires GetStudents(raw).Some?
    ensures NextId(StudentIds(raw)).Some?
    ensures var id := NextId(StudentIds(raw)).value;
      var s := CoerceStudent(NewStudent(id, name, grade, goals), id);
      && GetStudents(raw + [NewStudent(id, name, grade, goals)]) == Some(GetStudents(raw).value + [s])
      && forall k :: 0 <= k < |raw| ==> GetStudents(raw).value[k].id < id
  {
    var ids := StudentIds(raw);
    assert forall k :: 0 <= k < |raw| ==> ids[k] == raw[k].id;
    var id := NextId(ids).value;
    GetStudentsSnoc(raw, NewStudent(id, name, grade, goals));
  }

  /** `update_cell` on one goal column: a recognised subject writes its
      goal cell, any other subject writes nothing. */
  function SetGoal(rec: StudentRecord, subject: string, val: int): StudentRecord
  {
    if subject == "Math" then rec.(goalMath := Int(val))
    else if subject == "English" then rec.(goalEnglish := Int(val))
    else if subject == "Task Completion" then rec.(goalTaskCompletion := Int(val))
    else rec
  }

  /** The goal loop of `update_student`, pair by pair in order. */
  function WithGoals(rec: StudentRecord, goals: seq<(string, int)>): StudentRecord
    decreases |goals|
  {
    if goals == [] then rec else WithGoals(SetGoal(rec, goals[0].0, goals[0].1), goals[1..])
  }

  /** The value of the last pair for `subject`, if any. */
  function LastGoal(goals: seq<(string, int)>, subject: string): Option<int>
  {
    if goals == [] then None
    else match LastGoal(goals[1..], subject)
      case Some(v) => Some(v)
      case None => if goals[0].0 == subject then Some(goals[0].1) else None
  }

  /** The goal loop leaves every cell but the goals alone and gives each
      subject's goal the last value supplied for it. */
  lemma {:induction false} WithGoalsMeaning(rec: StudentRecord, goals: seq<(string, int)>, subject: string)
    requires subject in Subjects
    ensures var r := WithGoals(rec, goals);
      r.id == rec.id && r.name == rec.name && r.grade == rec.grade && r.activeSubject == rec.activeSubject
    ensures GoalCell(WithGoals(rec, goals), subject)
      == if LastGoal(goals, subject).Some? then Int(LastGoal(goals, subject).value) else GoalCell(rec, subject)
    decreases |goals|
  {
    if goals != [] {
      WithGoalsMeaning(SetGoal(rec, goals[0].0, goals[0].1), goals[1..], subject);
    }
  }

  /** The record `update_student` leaves: a new name only when one is given
      and non-empty, then the goals. */
  function UpdatedStudent(rec: StudentRecord, newName: Option<string>, goals: seq<(string, int)>): StudentRecord
  {
    WithGoals(if newName.Some? && newName.value != "" then rec.(name := newName.value) else rec, goals)
  }

  /** `update_student` on the table: only the first record whose id reads
      as `studentId` changes; with none, nothing does. */
  function UpdateStudentRows(rows: seq<StudentRecord>, studentId: int, newName: Option<string>, goals: seq<(string, int)>)
    : (r: seq<StudentRecord>)
    ensures |r| == |rows|
    ensures forall i :: 0 <= i < |rows| ==>
      r[i] == if FirstMatch(StudentIds(rows), Int(studentId), i) then UpdatedStudent(rows[i], newName, goals) else rows[i]
  {
    var ids := StudentIds(rows);
    FirstMatchAt(ids, Int(studentId));
    var row := RowOf(ids, Int(studentId));
    if row.None? then rows
    else rows[row.value - 2 := UpdatedStudent(rows[row.value - 2], newName, goals)]
  }

  /** `update_student_subject` on the table: only the first record whose id
      reads as `studentId` gets the subject in its active_subject cell. */
  function ChangeSubjectRows(rows: seq<StudentRecord>, studentId: int, subject: string): (r: seq<StudentRecord>)
    ensures |r| == |rows|
    ensures forall i :: 0 <= i < |rows| ==>
      r[i] == if FirstMatch(StudentIds(rows), Int(studentId), i) then rows[i].(activeSubject := Text(subject)) else rows[i]
  {
    var ids := StudentIds(rows);
    FirstMatchAt(ids, Int(studentId));
    var row := RowOf(ids, Int(studentId));
    if row.None? then rows
    else rows[row.value - 2 := rows[row.value - 2].(activeSubject := Text(subject))]
  }

  /** After a change of subject to one of the three, the student reads
      back with it as active subject, and everyone else reads as before. */
  lemma ChangeSubjectReadBack(rows: seq<StudentRecord>, studentId: int, subject: string, i: int)
    requires GetStudents(rows).Some?
    requires FirstMatch(StudentIds(rows), Int(studentId), i)
    requires subject in Subjects
    ensures GetStudents(ChangeSubjectRows(rows, studentId, subject)).Some?
    ensures var after := GetStudents(ChangeSubjectRows(rows, studentId, subject)).value;
      && |after| == |rows|
      && SafeActiveSubject(after[i]) == subject
      && after[i].(activeSubject := GetStudents(rows).value[i].activeSubject) == GetStudents(rows).value[i]
      && forall k :: 0 <= k < |rows| && k != i ==> after[k] == GetStudents(rows).value[k]
  {
    var r := ChangeSubjectRows(rows, studentId, subject);
    assert forall k :: 0 <= k < |rows| ==> r[k].id == rows[k].id;
    assert forall k :: 0 <= k < |rows| && k != i ==> !FirstMatch(StudentIds(rows), Int(studentId), k);
  }

  /** `delete_rows` on the row `_find_row` gives: the first record whose id
      reads as `studentId` is gone and the others stay in order; with no
      such record, nothing changes. */
  function DeleteStudentRows(rows: seq<StudentRecord>, studentId: int): (r: seq<StudentRecord>)
    ensures (forall i :: !FirstMatch(StudentIds(rows), Int(studentId), i)) ==> r == rows
    ensures forall i :: FirstMatch(StudentIds(rows), Int(studentId), i) ==> r == rows[..i] + rows[i + 1..]
  {
    var ids := StudentIds(rows);
    FirstMatchAt(ids, Int(studentId));
    var row := RowOf(ids, Int(studentId));
    if row.None? then rows
    else
      assert FirstMatch(ids, Int(studentId), row.value - 2);
      rows[..row.value - 2] + rows[row.value - 1..]
  }

  /** Deleting removes one record only: a later record with the same id is
      still there, one row up. */
  lemma DeleteKeepsLaterDuplicate(rows: seq<StudentRecord>, studentId: int, i: int, j: int)
    requires FirstMatch(StudentIds(rows), Int(studentId), i)
    requires i < j < |rows| && rows[j].id == rows[i].id
    ensures |DeleteStudentRows(rows, studentId)| == |rows| - 1
    ensures DeleteStudentRows(rows, studentId)[j - 1] == rows[j]
  {
    assert DeleteStudentRows(rows, studentId) == rows[..i] + rows[i + 1..];
  }

  // ---------------------------------------------------------------------
  // add_log

  /** The row `add_log` appends: the id from `_next_id`, then the values
      given, the date as the text it was passed as. */
  function NewLog(id: int, studentId: int, subject: string, staffName: string, minutes: int, logDate: string, note: string)
    : LogRecord
  {
    LogRecord(Int(id), Int(studentId), subject, staffName, Int(minutes), Text(logDate), Some(note))
  }

  /** A session logged with `add_log` for the date `d` (passed as
      `str(d)`) reads back as exactly the values given, after the rows
      already there; its date reads as `NaT` when a timestamp cannot hold
      it. */
  lemma AddLogReadBack(raw: seq<LogRecord>, id: int, studentId: int, subject: string, staffName: string,
                        minutes: int, d: Day, note: string)
    ensures GetLogs(raw + [NewLog(id, studentId, subject, staffName, minutes, IsoFormat(d), note)])
         == GetLogs(raw) + [LogRow(Some(id), Some(studentId), subject, staffName, minutes,
                                   if InTimestampRange(d) then Some(d) else None, note)]
  {
    var rec := NewLog(id, studentId, subject, staffName, minutes, IsoFormat(d), note);
    GetLogsAppend(raw, [rec]);
    DateValueOfIso(d);
    assert GetLogs([rec]) == [CoerceLog(rec)] + GetLogs([]);
  }

  /** A session logged with `add_log` adds its minutes to the student's
      total for its subject in every window holding its date, and nothing
      to any other total; a date a timestamp cannot hold adds to none. */
  lemma AddLogStudentMinutes(raw: seq<LogRecord>, id: int, studentId: int, subject: string, staffName: string,
                             minutes: int, d: Day, note: string, sid: int, subj: string, start: Day, end: Day)
    ensures var after := GetLogs(raw + [NewLog(id, studentId, subject, staffName, minutes, IsoFormat(d), note)]);
      StudentMinutes(after, sid, subj, start, end)
        == StudentMinutes(GetLogs(raw), sid, subj, start, end)
           + (if sid == studentId && subj == subject && InTimestampRange(d) && start <= d <= end then minutes else 0)
  {
    var date := if InTimestampRange(d) then Some(d) else None;
    var row := LogRow(Some(id), Some(studentId), subject, staffName, minutes, date, note);
    AddLogReadBack(raw, id, studentId, subject, staffName, minutes, d, note);
    StudentMinutesAppend(GetLogs(raw), [row], sid, subj, start, end);
    StudentMinutesIsSessionSum([row], sid, subj, start, end);
    assert SumWhere([row], Session(sid, subj, start, end))
        == (if Session(sid, subj, start, end)(row) then minutes else 0) + SumWhere([], Session(sid, subj, start, end));
  }

  /** The renames touch names only: the staff table keeps its length, ids
      and colors. */
  lemma {:induction false} StaffAfterKeepsIds(staff: seq<StaffRecord>, pairs: seq<(int, string)>)
    ensures |StaffAfter(staff, pairs)| == |staff|
    ensures forall i :: 0 <= i < |staff| ==>
      StaffAfter(staff, pairs)[i].id == staff[i].id && StaffAfter(staff, pairs)[i].color == staff[i].color
    decreases |pairs|
  {
    if pairs != [] {
      StaffAfterKeepsIds(RenameStaff(staff, pairs[0].0, pairs[0].1), pairs[1..]);
    }
  }

  /** After a rename pass the app reads the old name's minutes under the
      new name, on top of the new name's own, and none under the old. */
  lemma {:induction false} RenameMovesMinutes(raw: seq<LogRecord>, oldName: string, newName: string)
    requires oldName != newName
    ensures SumWhere(GetLogs(RenameLogs(raw, oldName, newName)), ByStaff(newName))
         == SumWhere(GetLogs(raw), ByStaff(oldName)) + SumWhere(GetLogs(raw), ByStaff(newName))
    ensures SumWhere(GetLogs(RenameLogs(raw, oldName, newName)), ByStaff(oldName)) == 0
  {
    if raw != [] {
      RenameMovesMinutes(raw[1..], oldName, newName);
      var r := RenameLogs(raw, oldName, newName);
      assert r[1..] == RenameLogs(raw[1..], oldName, newName);
      assert GetLogs(r) == [CoerceLog(r[0])] + GetLogs(r[1..]);
    }
  }

  /** The same for one student, subject and window: after a rename pass the
      old name's sessions count for the new name, none count for the old
      name, and every other staff name's sessions are as they were. */
  lemma {:induction false} RenameMovesSessionMinutes(raw: seq<LogRecord>, oldName: string, newName: string,
                                                     sid: int, subject: string, start: Day, end: Day)
    requires oldName != newName
    ensures SumWhere(GetLogs(RenameLogs(raw, oldName, newName)), StaffSession(sid, subject, start, end, newName))
         == SumWhere(GetLogs(raw), StaffSession(sid, subject, start, end, oldName))
          + SumWhere(GetLogs(raw), StaffSession(sid, subject, start, end, newName))
    ensures SumWhere(GetLogs(RenameLogs(raw, oldName, newName)), StaffSession(sid, subject, start, end, oldName)) == 0
    ensures forall n :: n != oldName && n != newName ==>
      SumWhere(GetLogs(RenameLogs(raw, oldName, newName)), StaffSession(sid, subject, start, end, n))
      == SumWhere(GetLogs(raw), StaffSession(sid, subject, start, end, n))
  {
    if raw != [] {
      RenameMovesSessionMinutes(raw[1..], oldName, newName, sid, subject, start, end);
      var r := RenameLogs(raw, oldName, newName);
      assert r[1..] == RenameLogs(raw[1..], oldName, newName);
      assert GetLogs(r) == [CoerceLog(r[0])] + GetLogs(r[1..]);
    }
  }

  /** A rename pass seen through `staff_breakdown` for any student, subject
      and window: the old name's bucket is emptied into the new name's when
      both are on the roster, and every other bucket is unchanged. */
  lemma RenameMovesBreakdown(raw: seq<LogRecord>, oldName: string, newName: string,
                             sid: int, subject: string, start: Day, end: Day, roster: seq<string>)
    requires oldName != newName
    ensures var before := Breakdown(GetLogs(raw), sid, subject, start, end, roster);
      var after := Breakdown(GetLogs(RenameLogs(raw, oldName, newName)), sid, subject, start, end, roster);
      && after.Keys == before.Keys
      && (oldName in roster ==> after[oldName] == 0)
      && (oldName in roster && newName in roster ==> after[newName] == before[oldName] + before[newName])
      && (forall n :: n in roster && n != oldName && n != newName ==> after[n] == before[n])
  {
    var logs, renamed := GetLogs(raw), GetLogs(RenameLogs(raw, oldName, newName));
    RenameMovesSessionMinutes(raw, oldName, newName, sid, subject, start, end);
    forall n | n in roster
      ensures Breakdown(logs, sid, subject, start, end, roster)[n] == SumWhere(logs, StaffSession(sid, subject, start, end, n))
      ensures Breakdown(renamed, sid, subject, start, end, roster)[n] == SumWhere(renamed, StaffSession(sid, subject, start, end, n))
    {
      BreakdownEntry(logs, sid, subject, start, end, roster, n);
      BreakdownEntry(renamed, sid, subject, start, end, roster, n);
    }
  }

  /** Updating a student never touches an id. */
  lemma {:induction false} UpdateStudentKeepsIds(rows: seq<StudentRecord>, studentId: int, newName: Option<string>,
                                                 goals: seq<(string, int)>)
    ensures StudentIds(UpdateStudentRows(rows, studentId, newName, goals)) == StudentIds(rows)
  {
    var u := UpdateStudentRows(rows, studentId, newName, goals);
    forall i | 0 <= i < |rows|
      ensures u[i].id == rows[i].id
    {
      if FirstMatch(StudentIds(rows), Int(studentId), i) {
        WithGoalsMeaning(if newName.Some? && newName.value != "" then rows[i].(name := newName.value) else rows[i], goals, "Math");
      }
    }
    assert forall i :: 0 <= i < |rows| ==> StudentIds(u)[i] == StudentIds(rows)[i];
  }

  /** Changing the subject never touches an id. */
  lemma {:induction false} ChangeSubjectKeepsIds(rows: seq<StudentRecord>, studentId: int, subject: string)
    ensures StudentIds(ChangeSubjectRows(rows, studentId, subject)) == StudentIds(rows)
  {
    var c := ChangeSubjectRows(rows, studentId, subject);
    assert forall i :: 0 <= i < |rows| ==> StudentIds(c)[i] == StudentIds(rows)[i];
  }

  /** Removing one id keeps the others distinct. */
  lemma DistinctIdsRemove(ids: seq<Cell>, i: int)
    requires DistinctIds(ids) && 0 <= i < |ids|
    ensures DistinctIds(ids[..i] + ids[i + 1..])
  {
    var rest := ids[..i] + ids[i + 1..];
    assert forall k :: 0 <= k < |rest| ==> rest[k] == ids[if k < i then k else k + 1];
    forall a, b | 0 <= a < b < |rest|
      ensures IntValue(rest[a]) != IntValue(rest[b])
    {
      var a', b' := if a < i then a else a + 1, if b < i then b else b + 1;
      assert rest[a] == ids[a'] && rest[b] == ids[b'] && a' < b';
    }
  }

  /** Deleting keeps the remaining ids distinct. */
  lemma {:induction false} DeleteKeepsDistinctIds(rows: seq<StudentRecord>, studentId: int)
    requires DistinctIds(StudentIds(rows))
    ensures DistinctIds(StudentIds(DeleteStudentRows(rows, studentId)))
  {
    var ids := StudentIds(rows);
    FirstMatchAt(ids, Int(studentId));
    var row := RowOf(ids, Int(studentId));
    if row.Some? {
      var i := row.value - 2;
      assert FirstMatch(ids, Int(studentId), i);
      StudentIdsRemove(rows, i);
      DistinctIdsRemove(ids, i);
    }
  }

  lemma StudentIdsRemove(rows: seq<StudentRecord>, i: int)
    requires 0 <= i < |rows|
    ensures StudentIds(rows[..i] + rows[i + 1..]) == StudentIds(rows)[..i] + StudentIds(rows)[i + 1..]
  {
    var a, b := StudentIds(rows[..i] + rows[i + 1..]), StudentIds(rows)[..i] + StudentIds(rows)[i + 1..];
    assert |a| == |b|;
    forall k | 0 <= k < |a|
      ensures a[k] == b[k]
    {
      assert (rows[..i] + rows[i + 1..])[k] == rows[if k < i then k else k + 1];
    }
  }

  // ---------------------------------------------------------------------
  // The worksheets and the operations that change them

  /** `SheetsDB`: the three worksheets, each a sequence of records. */
  class SheetsDB {
    var staff: seq<StaffRecord>
    var students: seq<StudentRecord>
    var logs: seq<LogRecord>

    /** A store over worksheets that already exist with these records. */
    constructor (staff0: seq<StaffRecord>, students0: seq<StudentRecord>, logs0: seq<LogRecord>)
      ensures staff == staff0 && students == students0 && logs == logs0
    {
      staff := staff0;
      students := students0;
      logs := logs0;
    }

    /** The log loop of `update_staff_names`: `update_cell` on the staff
        cell of every record that has `oldName`. */
    method RenameInLogs(oldName: string, newName: string)
      modifies this
      ensures logs == RenameLogs(old(logs), oldName, newName)
      ensures staff == old(staff) && students == old(students)
    {
      ghost var before := logs;
      var i := 0;
      while i < |logs|
        invariant 0 <= i <= |logs| && |logs| == |before|
        invariant forall j :: 0 <= j < i ==> logs[j] == RenameLogs(before, oldName, newName)[j]
        invariant forall j :: i <= j < |logs| ==> logs[j] == before[j]
        invariant staff == old(staff) && students == old(students)
      {
        if logs[i].staff == oldName {
          logs := logs[i := logs[i].(staff := newName)];
        }
        i := i + 1;
      }
      assert logs == RenameLogs(before, oldName, newName);
    }

    /** The staff half of one pair of `update_staff_names`: the name cell
        of the row `_find_row` gives for the id. */
    method RenameStaffRecord(staffId: int, newName: string)
      modifies this
      ensures staff == RenameStaff(old(staff), staffId, newName)
      ensures logs == old(logs) && students == old(students)
    {
      var row := FindRow(StaffIds(staff), Int(staffId));
      if row.Some? {
        staff := staff[row.value - 2 := staff[row.value - 2].(name := newName)];
      }
    }

    /** `update_staff_names`: the old names are captured once, then each
        pair renames its staff record and, when its old name is non-empty
        and differs, rewrites that name in the logs table as the previous
        pairs left it. */
    method UpdateStaffNames(pairs: seq<(int, string)>)
      modifies this
      ensures staff == StaffAfter(old(staff), pairs)
      ensures logs == LogsAfter(old(logs), pairs, OldNames(old(staff)))
      ensures students == old(students)
    {
      var names := OldNames(staff);
      ghost var staff0 := staff;
      ghost var logs0 := logs;
      var k := 0;
      while k < |pairs|
        invariant 0 <= k <= |pairs|
        invariant StaffAfter(staff, pairs[k..]) == StaffAfter(staff0, pairs)
        invariant LogsAfter(logs, pairs[k..], names) == LogsAfter(logs0, pairs, names)
        invariant students == old(students)
      {
        var staffId := pairs[k].0;
        var newName := pairs[k].1;
        assert pairs[k..][1..] == pairs[k + 1..];
        ghost var logsBefore := logs;
        RenameStaffRecord(staffId, newName);
        var oldName := if staffId in names then names[staffId] else "";
        if oldName != "" && oldName != newName {
          RenameInLogs(oldName, newName);
        }
        assert logs == RenameStep(logsBefore, names, pairs[k]);
        k := k + 1;
      }
    }

    /** `add_student`: appends one record with the id `_next_id` gives;
        `ok` is false, and nothing changes, where `_next_id` raises. */
    method AddStudent(name: string, grade: string, goals: map<string, int>) returns (ok: bool)
      modifies this
      ensures ok <==> NextId(StudentIds(old(students))).Some?
      ensures ok ==> students == old(students) + [NewStudent(NextId(StudentIds(old(students))).value, name, grade, goals)]
      ensures !ok ==> students == old(students)
      ensures staff == old(staff) && logs == old(logs)
    {
      var newId := NextId(StudentIds(students));
      if newId.None? {
        return false;
      }
      students := students + [NewStudent(newId.value, name, grade, goals)];
      return true;
    }

    /** `update_student`: on the first record whose id reads as
        `studentId`, writes the name when one is given and non-empty, then
        each recognised subject's goal in turn; nothing when no record
        matches. */
    method UpdateStudent(studentId: int, newName: Option<string>, goals: seq<(string, int)>)
      modifies this
      ensures students == UpdateStudentRows(old(students), studentId, newName, goals)
      ensures staff == old(staff) && logs == old(logs)
    {
      var row := FindRow(StudentIds(students), Int(studentId));
      if row.None? {
        return;
      }
      var i := row.value - 2;
      if newName.Some? && newName.value != "" {
        students := students[i := students[i].(name := newName.value)];
      }
      var rec := WriteGoals(students[i], goals);
      students := students[i := rec];
      FirstMatchAt(StudentIds(old(students)), Int(studentId));
      assert students == UpdateStudentRows(old(students), studentId, newName, goals);
    }

    /** The goal loop of `update_student` on the matched record: each
        recognised subject's goal cell written in turn. */
    static method WriteGoals(rec0: StudentRecord, goals: seq<(string, int)>) returns (rec: StudentRecord)
      ensures rec == WithGoals(rec0, goals)
    {
      rec := rec0;
      var k := 0;
      while k < |goals|
        invariant 0 <= k <= |goals|
        invariant WithGoals(rec, goals[k..]) == WithGoals(rec0, goals)
      {
        assert goals[k..][1..] == goals[k + 1..];
        rec := SetGoal(rec, goals[k].0, goals[k].1);
        k := k + 1;
      }
    }

    /** `update_student_subject`: writes the subject into the active_subject
        cell of the first record whose id reads as `studentId`. */
    method UpdateStudentSubject(studentId: int, subject: string)
      modifies this
      ensures students == ChangeSubjectRows(old(students), studentId, subject)
      ensures staff == old(staff) && logs == old(logs)
    {
      var row := FindRow(StudentIds(students), Int(studentId));
      if row.None? {
        return;
      }
      var i := row.value - 2;
      students := students[i := students[i].(activeSubject := Text(subject))];
      FirstMatchAt(StudentIds(old(students)), Int(studentId));
      assert students == ChangeSubjectRows(old(students), studentId, subject);
    }

    /** `delete_student`: removes the first record whose id reads as
        `studentId`; the logs table is left as it is, so that student's
        sessions stay behind. */
    method DeleteStudent(studentId: int)
      modifies this
      ensures students == DeleteStudentRows(old(students), studentId)
      ensures staff == old(staff) && logs == old(logs)
    {
      var row := FindRow(StudentIds(students), Int(studentId));
      if row.Some? {
        students := students[..row.value - 2] + students[row.value - 1..];
      }
    }

    /** `add_log`: appends one record with the id `_next_id` gives and the
        values passed; `ok` is false, and nothing changes, where `_next_id`
        raises. */
    method AddLog(studentId: int, subject: string, staffName: string, minutes: int, logDate: string, note: string)
      returns (ok: bool)
      modifies this
      ensures ok <==> NextId(LogIds(old(logs))).Some?
      ensures ok ==> logs == old(logs) + [NewLog(NextId(LogIds(old(logs))).value, studentId, subject, staffName, minutes, logDate, note)]
      ensures !ok ==> logs == old(logs)
      ensures staff == old(staff) && students == old(students)
    {
      var newId := NextId(LogIds(logs));
      if newId.None? {
        return false;
      }
      logs := logs + [NewLog(newId.value, studentId, subject, staffName, minutes, logDate, note)];
      return true;
    }
  }
}
