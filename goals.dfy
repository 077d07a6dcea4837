/** The goal engine of the app: a student's weekly goal and active subject
    read with fallbacks, the figures of a student's card for the current
    week, and the monthly goal-hit chart. The reference date `today` is a
    parameter. */
module Goals {
  import opened Wrappers
  import opened Calendar
  import opened Cells
  import opened DateWindows
  import opened Aggregation

  /** `SUBJECTS`. */
  const Subjects: seq<string> := ["Math", "English", "Task Completion"]

  /** One row of the students table as the app sees it: the id already an
      integer, the active subject `None` when the column is absent or `NaN`,
      and the goal cells keyed by column name (a missing key is a missing
      column). */
  datatype Student = Student(
    id: int,
    name: string,
    grade: string,
    activeSubject: Option<Cell>,
    goals: map<string, Cell>)

  /** The goal column for `subject`; a subject the app does not know falls
      back to the Math goal column. */
  function GoalColumn(subject: string): string
  {
    if subject == "Math" then "goal_math"
    else if subject == "English" then "goal_english"
    else if subject == "Task Completion" then "goal_task_completion"
    else "goal_math"
  }

  /** `safe_goal(student, subject)`: the integer in the subject's goal
      column; 60 when the column is absent or its cell is not an integer. */
  function SafeGoal(s: Student, subject: string): (g: int)
    ensures GoalColumn(subject) !in s.goals ==> g == 60
    ensures GoalColumn(subject) in s.goals && IntValue(s.goals[GoalColumn(subject)]).None? ==> g == 60
    ensures GoalColumn(subject) in s.goals && IntValue(s.goals[GoalColumn(subject)]).Some? ==>
      g == IntValue(s.goals[GoalColumn(subject)]).value
  {
    var col := GoalColumn(subject);
    var val := if col in s.goals then s.goals[col] else Int(60);
    match IntValue(val)
    case Some(v) => v
    case None => 60
  }

  /** An unrecognised subject reads the `goal_math` column: it gets the Math
      goal, not the constant 60. */
  lemma SafeGoalUnknownSubject(s: Student, subject: string)
    requires subject !in Subjects
    ensures SafeGoal(s, subject) == SafeGoal(s, "Math")
  {
  }

  /** `safe_active_subject(student)`: the stored subject when it is one of
      `SUBJECTS`, and "Math" otherwise (missing, `NaN` or anything else). */
  function SafeActiveSubject(s: Student): (subject: string)
    ensures subject in Subjects
    ensures (s.activeSubject.Some? && s.activeSubject.value.Text? && s.activeSubject.value.s in Subjects)
      ==> subject == s.activeSubject.value.s
    ensures !(s.activeSubject.Some? && s.activeSubject.value.Text? && s.activeSubject.value.s in Subjects)
      ==> subject == "Math"
  {
    match s.activeSubject
    case None => "Math"
    case Some(v) => if v.Text? && v.s in Subjects then v.s else "Math"
  }

  // ---------------------------------------------------------------------
  // render_student_card

  /** The figures of a student's card: the active subject, its goal, the
      week's total over the roster and whether the goal is met. */
  datatype Card = Card(subject: string, goal: int, total: int, goalMet: bool)

  /** The arithmetic of `render_student_card(student, logs, roster)` for the
      week of `today`; `None` where the week would run past 9999-12-31. */
  function CardFigures(s: Student, logs: seq<LogRow>, roster: seq<string>, today: Day): Option<Card>
  {
    var subject := SafeActiveSubject(s);
    var goal := SafeGoal(s, subject);
    var week := WeekRange(today);
    if week.None? then None
    else
      var total := BreakdownTotal(logs, s.id, subject, week.value.0, week.value.1, roster);
      Some(Card(subject, goal, total, total >= goal))
  }

  /** The card's figures are those of the week `get_week_range(today)`, the
      Monday-to-Sunday week holding `today`: its active subject, that
      subject's goal, the breakdown's total for the week, and "goal met"
      exactly when the total reaches the goal. */
  lemma CardOfWeek(s: Student, logs: seq<LogRow>, roster: seq<string>, today: Day)
    requires today <= MaxOrdinal - 5
    ensures WeekRange(today).Some?
    ensures var subject := SafeActiveSubject(s);
      var goal := SafeGoal(s, subject);
      var w := WeekRange(today).value;
      var total := BreakdownTotal(logs, s.id, subject, w.0, w.1, roster);
      CardFigures(s, logs, roster, today) == Some(Card(subject, goal, total, total >= goal))
  {
  }

  /** The card shows the student's active subject and its goal, and "goal
      met" exactly when the total reaches the goal. The total is the
      one-pass sum of the student's sessions of that subject in the Monday
      to Sunday week holding `today`, given by rostered staff; with
      non-negative minutes it is at most `student_minutes` for the week, and
      exactly it when every such session was given by a rostered staff
      member. */
  lemma CardTotalMeaning(s: Student, logs: seq<LogRow>, roster: seq<string>, today: Day)
    requires today <= MaxOrdinal - 5
    ensures CardFigures(s, logs, roster, today).Some?
    ensures var c := CardFigures(s, logs, roster, today).value;
      && c.subject == SafeActiveSubject(s)
      && c.goal == SafeGoal(s, c.subject)
      && (c.goalMet <==> c.total >= c.goal)
    ensures var c := CardFigures(s, logs, roster, today).value;
      var w := WeekRange(today).value;
      && Weekday(w.0) == 0 && w.0 <= today <= w.1 && w.1 == w.0 + 6
      && c.total == SumWhere(logs, RosteredSession(s.id, c.subject, w.0, w.1, roster))
      && (NonNegative(logs) ==> c.total <= StudentMinutes(logs, s.id, c.subject, w.0, w.1))
      && ((forall r :: r in logs && Session(s.id, c.subject, w.0, w.1)(r) ==> r.staff in roster)
          ==> c.total == StudentMinutes(logs, s.id, c.subject, w.0, w.1))
  {
    CardOfWeek(s, logs, roster, today);
    var w := WeekRange(today).value;
    var subject := SafeActiveSubject(s);
    BreakdownTotalIsSum(logs, s.id, subject, w.0, w.1, roster);
    BreakdownTotalVersusStudentMinutes(logs, s.id, subject, w.0, w.1, roster);
  }

  /** Logging more sessions with non-negative minutes never takes a met
      goal away from a card. */
  lemma CardGoalMetStays(s: Student, logs: seq<LogRow>, more: seq<LogRow>, roster: seq<string>, today: Day)
    requires today <= MaxOrdinal - 5
    requires NonNegative(more)
    requires CardFigures(s, logs, roster, today).value.goalMet
    ensures CardFigures(s, logs + more, roster, today).value.goalMet
  {
    CardOfWeek(s, logs, roster, today);
    CardOfWeek(s, logs + more, roster, today);
    var w := WeekRange(today).value;
    var subject := SafeActiveSubject(s);
    var p := RosteredSession(s.id, subject, w.0, w.1, roster);
    BreakdownTotalIsSum(logs, s.id, subject, w.0, w.1, roster);
    BreakdownTotalIsSum(logs + more, s.id, subject, w.0, w.1, roster);
    SumWhereAppend(logs, more, p);
    SumWhereNonNegative(more, p);
  }

  // ---------------------------------------------------------------------
  // render_goal_chart

  /** `student_minutes(...) >= safe_goal(...)` for student `s`: the student
      reaches the goal of `subject` in the window. */
  function HitsGoal(logs: seq<LogRow>, subject: string, start: Day, end: Day): Student -> bool
  {
    (s: Student) => StudentMinutes(logs, s.id, subject, start, end) >= SafeGoal(s, subject)
  }

  /** The number of students satisfying `hit`, counted one student after the
      other. */
  function CountWhere(students: seq<Student>, hit: Student -> bool): (count: nat)
    ensures count <= |students|
  {
    if students == [] then 0
    else CountWhere(students[..|students| - 1], hit) + (if hit(students[|students| - 1]) then 1 else 0)
  }

  /** The count is everyone exactly when every student qualifies, and zero
      exactly when nobody does. */
  lemma {:induction false} CountWhereExtremes(students: seq<Student>, hit: Student -> bool)
    ensures CountWhere(students, hit) == |students| <==> forall i :: 0 <= i < |students| ==> hit(students[i])
    ensures CountWhere(students, hit) == 0 <==> forall i :: 0 <= i < |students| ==> !hit(students[i])
  {
    if students != [] {
      var init := students[..|students| - 1];
      CountWhereExtremes(init, hit);
      assert forall i :: 0 <= i < |init| ==> init[i] == students[i];
    }
  }

  /** The number of students who reach their goal of `subject` in the
      window: the chart's `count`. */
  function GoalHits(students: seq<Student>, logs: seq<LogRow>, subject: string, start: Day, end: Day): nat
  {
    CountWhere(students, HitsGoal(logs, subject, start, end))
  }

  /** One row of the chart: the week (its label is `week.Caption()`) and,
      per subject of `SUBJECTS` in order, the number of students who hit
      their goal that week. */
  datatype ChartRow = ChartRow(week: Week, counts: seq<nat>)

  /** The chart's row for one week. */
  function WeekRow(w: Week, students: seq<Student>, logs: seq<LogRow>): ChartRow
  {
    ChartRow(w, seq(|Subjects|, j requires 0 <= j < |Subjects| => GoalHits(students, logs, Subjects[j], w.start, w.end)))
  }

  /** `render_goal_chart`'s rows as a value: one row per week of the month of
      `today`, in order. */
  function GoalChart(logs: seq<LogRow>, students: seq<Student>, today: Day): Option<seq<ChartRow>>
  {
    match MonthWeeks(today)
    case None => None
    case Some(weeks) => Some(WeekRows(weeks, students, logs))
  }

  /** The rows of `weeks`, one per week in order, as the loop of
      `render_goal_chart` appends them. */
  function WeekRows(weeks: seq<Week>, students: seq<Student>, logs: seq<LogRow>): seq<ChartRow>
  {
    if weeks == [] then []
    else WeekRows(weeks[..|weeks| - 1], students, logs) + [WeekRow(weeks[|weeks| - 1], students, logs)]
  }

  /** Row `i` of `WeekRows` is the row of week `i`. */
  lemma {:induction false} WeekRowsAt(weeks: seq<Week>, students: seq<Student>, logs: seq<LogRow>)
    ensures |WeekRows(weeks, students, logs)| == |weeks|
    ensures forall i :: 0 <= i < |weeks| ==> WeekRows(weeks, students, logs)[i] == WeekRow(weeks[i], students, logs)
  {
    if weeks != [] {
      var init := weeks[..|weeks| - 1];
      var front := WeekRows(init, students, logs);
      var back := WeekRow(weeks[|weeks| - 1], students, logs);
      WeekRowsAt(init, students, logs);
      assert WeekRows(weeks, students, logs) == front + [back];
      forall i | 0 <= i < |weeks|
        ensures (front + [back])[i] == WeekRow(weeks[i], students, logs)
      {
        if i < |init| {
          assert (front + [back])[i] == front[i];
          assert weeks[i] == init[i];
        }
      }
    }
  }

  /** The chart has one row per week of `get_month_weeks`, in order,
      labelled with that week; each row counts, per subject, the students
      who hit their goal in that week, a number from 0 to the number of
      students; with no students every count is 0. */
  lemma GoalChartShape(logs: seq<LogRow>, students: seq<Student>, today: Day)
    ensures GoalChart(logs, students, today).Some? <==> MonthWeeks(today).Some?
    ensures GoalChart(logs, students, today).Some? ==>
      var weeks := MonthWeeks(today).value;
      var rows := GoalChart(logs, students, today).value;
      && |rows| == |weeks|
      && forall i :: 0 <= i < |rows| ==>
           && rows[i].week == weeks[i]
           && |rows[i].counts| == |Subjects|
           && forall j :: 0 <= j < |Subjects| ==>
                && rows[i].counts[j] <= |students|
                && (rows[i].counts[j] == 0 <==>
                      forall k :: 0 <= k < |students| ==> !HitsGoal(logs, Subjects[j], weeks[i].start, weeks[i].end)(students[k]))
                && (rows[i].counts[j] == |students| <==>
                      forall k :: 0 <= k < |students| ==> HitsGoal(logs, Subjects[j], weeks[i].start, weeks[i].end)(students[k]))
  {
    if MonthWeeks(today).Some? {
      var weeks := MonthWeeks(today).value;
      WeekRowsAt(weeks, students, logs);
      forall i, j | 0 <= i < |weeks| && 0 <= j < |Subjects|
        ensures var hit := HitsGoal(logs, Subjects[j], weeks[i].start, weeks[i].end);
          && GoalHits(students, logs, Subjects[j], weeks[i].start, weeks[i].end) <= |students|
          && (GoalHits(students, logs, Subjects[j], weeks[i].start, weeks[i].end) == 0 <==>
                forall k :: 0 <= k < |students| ==> !hit(students[k]))
          && (GoalHits(students, logs, Subjects[j], weeks[i].start, weeks[i].end) == |students| <==>
                forall k :: 0 <= k < |students| ==> hit(students[k]))
      {
        CountWhereExtremes(students, HitsGoal(logs, Subjects[j], weeks[i].start, weeks[i].end));
      }
    }
  }

  /** A row put together from the week's label and one count per subject is
      that week's row. */
  lemma WeekRowOf(w: Week, students: seq<Student>, logs: seq<LogRow>, counts: seq<nat>)
    requires |counts| == |Subjects|
    requires forall m :: 0 <= m < |Subjects| ==> counts[m] == GoalHits(students, logs, Subjects[m], w.start, w.end)
    ensures ChartRow(w, counts) == WeekRow(w, students, logs)
  {
  }

  /** The innermost loop of `render_goal_chart`: for every student, the goal
      and the minutes of `subject` in the week, the count going up by one
      when the goal is reached. */
  method CountGoalHits(logs: seq<LogRow>, students: seq<Student>, subject: string, start: Day, end: Day)
    returns (count: nat)
    ensures count == GoalHits(students, logs, subject, start, end)
  {
    count := 0;
    var k := 0;
    while k < |students|
      invariant 0 <= k <= |students|
      invariant count == CountWhere(students[..k], HitsGoal(logs, subject, start, end))
    {
      var stu := students[k];
      var goal := SafeGoal(stu, subject);
      var total := StudentMinutes(logs, stu.id, subject, start, end);
      assert students[..k + 1][..k] == students[..k];
      if total >= goal {
        count := count + 1;
      }
      k := k + 1;
    }
    assert students[..k] == students;
  }

  /** One week's bar heights, one subject after the other. */
  method WeekCounts(logs: seq<LogRow>, students: seq<Student>, w: Week) returns (counts: seq<nat>)
    ensures |counts| == |Subjects|
    ensures forall m :: 0 <= m < |Subjects| ==> counts[m] == GoalHits(students, logs, Subjects[m], w.start, w.end)
  {
    counts := [];
    var j := 0;
    while j < |Subjects|
      invariant 0 <= j <= |Subjects|
      invariant |counts| == j
      invariant forall m :: 0 <= m < j ==> counts[m] == GoalHits(students, logs, Subjects[m], w.start, w.end)
    {
      var count := CountGoalHits(logs, students, Subjects[j], w.start, w.end);
      counts := counts + [count];
      j := j + 1;
    }
  }

  /** `render_goal_chart(logs, students)`: for each week of the month, for
      each subject, the count of students who reach the goal, the row
      appended to `chart_rows`. */
  method GoalChartRows(logs: seq<LogRow>, students: seq<Student>, today: Day) returns (chart: Option<seq<ChartRow>>)
    ensures chart == GoalChart(logs, students, today)
  {
    var weeks := GetMonthWeeks(today);
    if weeks.None? {
      return None;
    }
    var ws := weeks.value;
    var rows: seq<ChartRow> := [];
    var i := 0;
    while i < |ws|
      invariant 0 <= i <= |ws|
      invariant rows == WeekRows(ws[..i], students, logs)
    {
      var w := ws[i];
      var counts := WeekCounts(logs, students, w);
      WeekRowOf(w, students, logs, counts);
      assert ws[..i + 1][..i] == ws[..i];
      rows := rows + [ChartRow(w, counts)];
      i := i + 1;
    }
    assert ws[..i] == ws;
    chart := Some(rows);
  }

}
