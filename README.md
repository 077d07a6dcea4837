# IEP minutes check — a Dafny model of the aggregation engine and the record store

The app tracks the minutes of special-education service that staff give each
student. The minutes are kept per subject and checked against weekly goals.
This project models the logic under its Streamlit page and its Google-Sheets
wrapper, and proves properties of that logic.

The model covers these parts:

- **Dates** (`calendar.dfy`, `date_windows.dfy`).
  - A date is its proleptic Gregorian ordinal, as Python's `date.toordinal()` gives it. `Day` runs from 1 (0001-01-01, a Monday) to 3652059 (9999-12-31).
  - Python's `date` is modelled by `ToOrdinal`/`FromOrdinal`, `Weekday` and the ISO text `str(date)`.
  - On top of that model: the Monday-to-Sunday week of a date, the month holding a date, and the Monday-to-Sunday windows overlapping a month.
  - Where a result would pass 9999-12-31 the model returns `None`. There Python raises `OverflowError` in `get_week_range` (`mon + timedelta(days=6)`), and `ValueError` in `get_month_range` and `get_month_weeks` (`date(ref.year + 1, 1, 1)` for December 9999).
- **Cells** (`cells.dfy`, `decimal.dfy`).
  - A worksheet cell is an integer or text.
  - `str(cell)`, `int(cell)` (with `pd.to_numeric(..., errors="coerce")`) and the date parse of the date column read cells back. A failed parse is `None`.
  - The date parse yields `NaT` for a well-formed date that a pandas nanosecond timestamp cannot hold: a day before 1677-09-22 or after 2262-04-11.
- **Aggregation** (`aggregation.dfy`).
  - The engine works on the coerced log: `logs_in_range`, `student_minutes` and `staff_breakdown`. `staff_breakdown` is a dict of roster names filled by a row loop.
  - It also computes the figures of the summary row.
- **Goals** (`goals.dfy`).
  - `safe_goal` and `safe_active_subject`.
  - The figures on a student card: the week's rostered total and whether the goal is met.
  - The month's goal chart: per week and per subject, the number of students who reach their goal.
- **Record store** (`sheets.dfy`).
  - The three worksheets are sequences of raw rows, the fields of the class `SheetsDB`. The header row is not stored, so data row `i` is worksheet row `i + 2`.
  - Modelled operations: `_next_id`, `_find_row`, `update_staff_names`, `add_student`, `update_student`, `update_student_subject`, `delete_student`, `add_log`.
  - Also the read-time coercion of `get_logs` and `get_students`.
  - Each method that changes a table is stated against a function of the old tables. The properties the source promises are proved as lemmas about those functions.

Where the app calls `date.today()`, the reference day is a parameter. A dict
that the code iterates is a sequence of pairs in iteration order. A dict that
is only looked up is a `map`.

Two details of the app that the model keeps:

- A week window and its label run Monday to Sunday (`cur + 6`).
- An unrecognised subject reads the `goal_math` column.

## Model

| member | source | states |
|---|---|---|
| Calendar.FromToOrdinal | files/app.py:140-141 | turning a valid date into its day number and back gives the same date |
| Calendar.ToOrdinalInjective | files/app.py:140-141 | two valid dates with the same day number are the same date |
| Calendar.WeekdayAfterWeeks | files/app.py:171 | moving a day by whole weeks keeps its weekday |
| Calendar.IsoRoundTrip | sheets_db.py:211 | parsing the ISO text `str(date)` writes gives back the same day |
| Cells.DateValue | sheets_db.py:202 | a date that parses lies in the range of a pandas nanosecond timestamp |
| Cells.TimestampBoundDates | sheets_db.py:202 | the two range bounds are the ordinals of 1677-09-22 and 2262-04-11 |
| Cells.DateValueOfIso | sheets_db.py:202 | a date cell written as `str(date)` is read back by the date parse as that date when a timestamp can hold it, and as `NaT` otherwise |
| Cells.IntValueOfStr | sheets_db.py:103 | reading the text of a numeric cell as an integer gives that number |
| Cells.StrOfIntInjective | sheets_db.py:103 | two numeric cells compare equal as strings exactly when the numbers are equal |
| Decimal.ParseIntToString | sheets_db.py:91 | `int(str(i)) == i` for every integer, negative ones included |
| DateWindows.MondayOnOrBefore | files/app.py:140 | the day returned is a Monday, on or before `d` and less than seven days before it |
| DateWindows.MondayOnOrBeforeUnique | files/app.py:140 | that Monday is the only Monday in the six days up to `d` |
| DateWindows.WeekRange | files/app.py:138-142 | `mon` is a Monday, `sun == mon + 6` and `mon <= ref <= sun`; `None` exactly when `sun` would pass 9999-12-31 |
| DateWindows.LastDayOfMonth | files/app.py:149-152 | the day before the first of the next month is the last day of the month, December rolling over into January |
| DateWindows.MonthRangeIsMonth | files/app.py:145-153 | `first` is day 1 of `ref`'s month, `last` its last day, the span has the month's length and holds `ref`; `None` only for December 9999 |
| DateWindows.WeeksFromShape | files/app.py:165-172 | window `i` starts `7 * i` days after the first Monday, lasts seven days and starts on or before the last day; the last window reaches the last day; no window when the start is past the end |
| DateWindows.WeeksCoverSpan | files/app.py:165-172 | the windows start on Mondays, follow each other without gap or overlap, and every day of the span lies in one of them |
| DateWindows.MonthWeeksCoverMonth | files/app.py:156-172 | the month's windows start at the Monday on or before the 1st, each starts on or before the month's last day, they run in order with no gap, and they cover every day of the month |
| DateWindows.GetMonthWeeks | files/app.py:156-172 | the `while` loop builds exactly the month's windows |
| DateWindows.CollectWeeks | files/app.py:165-171 | the loop that appends `[cur, cur + 6]` and advances `cur` by seven returns the windows from the first Monday to the last day |
| Aggregation.FilterMembers | files/app.py:184 | a row is kept exactly when it is in the input and satisfies the mask; at most as many rows come out as go in |
| Aggregation.FilterCounts | files/app.py:184 | the mask keeps each satisfying row exactly as often as it occurs and drops every other row |
| Aggregation.LogsInRangeCounts | files/app.py:180-184 | each row dated in the window is kept exactly as often as it occurs in the table, and no other row is kept |
| Aggregation.LogsInRange | files/app.py:180-184 | exactly the rows whose date parsed and lies from `start` to `end`, both ends included; empty input gives empty output |
| Sheets.GetLogsUnparsedDateOutside | sheets_db.py:202 | a log row whose date did not parse is in the log but in no window |
| Aggregation.LogsInRangeTwice | files/app.py:180-184 | windowing twice is windowing once by the intersection of the two windows |
| Aggregation.LogsInRangeAppend | files/app.py:180-184 | windowing distributes over concatenation of logs |
| Aggregation.StudentMinutes | files/app.py:187-193 | the total is non-negative when every row's minutes are |
| Aggregation.StudentMinutesIsSessionSum | files/app.py:187-193 | the total is the sum of minutes over rows with that student, that subject and a date in the window |
| Aggregation.StudentMinutesNoSession | files/app.py:190-191 | the total is 0 when no row matches |
| Aggregation.StudentMinutesAppend | files/app.py:187-193 | the total over two logs is the sum of the totals |
| Aggregation.Breakdown | files/app.py:199 | the keys are exactly the roster names |
| Aggregation.BreakdownEntry | files/app.py:196-207 | a roster name's bucket is the sum of minutes of that student's rows of that subject in the window with exactly that staff name |
| Aggregation.StaffTallyIsMinutes | files/app.py:204-206 | adding up the first `i` rows' minutes for a name gives the masked sum over those rows |
| Aggregation.ZeroBuckets | files/app.py:199 | one bucket per roster name, each 0 |
| Aggregation.TallyByStaff | files/app.py:204-206 | after the row loop, every bucket holds the minutes of the rows with that staff name; rows of unrostered staff change no bucket and add no key |
| Aggregation.StaffBreakdown | files/app.py:196-207 | the dict the loop builds equals the breakdown value, the empty window keeping every bucket at 0 |
| Aggregation.SumOverStaff | files/app.py:378 | summing the buckets of distinct names gives the minutes of the rows whose staff is one of those names |
| Aggregation.BreakdownTotalIsRostered | files/app.py:377-378 | the sum of the breakdown's values is the minutes of the matching rows whose staff is rostered |
| Aggregation.BreakdownTotalIsSum | files/app.py:377-378 | the same total as a masked sum over the whole log |
| Aggregation.BreakdownTotalVersusStudentMinutes | files/app.py:187-207 | with non-negative minutes the breakdown total is at most `student_minutes`, and it is equal when every matching row's staff is rostered |
| Aggregation.MinutesOfFilterBounded | files/app.py:192-193 | with non-negative minutes, a filtered sum is at most the whole sum |
| Aggregation.SummaryFigures | files/app.py:243-249 | one per-staff figure per roster row |
| Aggregation.SummaryGrandTotal | files/app.py:230-231 | the grand total is the minutes of all rows in the window, every student and subject included, 0 for an empty window |
| Aggregation.SummaryStaffFigure | files/app.py:243-249 | roster member `i`'s figure is the minutes of the window's rows with exactly that staff name |
| Aggregation.SummarySplitsByStaff | files/app.py:230-249 | the grand total is the sum of the distinct roster figures plus the minutes of window rows whose staff is not on the roster |
| Aggregation.Dedup | files/app.py:199 | the dict's keys in order: each roster name once, nothing else |
| Goals.SafeGoal | files/app.py:210-217 | the goal column's integer value, and 60 when the column is absent or does not read as an integer |
| Goals.SafeGoalUnknownSubject | files/app.py:212 | a subject outside the three reads the Math goal column, not 60 |
| Goals.SafeActiveSubject | files/app.py:220-224 | the stored subject when it is one of the three subjects, and "Math" otherwise |
| Goals.CardTotalMeaning | files/app.py:369-379 | the card shows the active subject and its goal, and `goal_met` exactly when the total reaches the goal; the week is the Monday-to-Sunday week holding `today`; the total is the rostered minutes of that week, at most `student_minutes` with non-negative minutes, and equal when every session's staff is rostered |
| Goals.CardGoalMetStays | files/app.py:377-379 | adding logs with non-negative minutes never turns a met goal into an unmet one |
| Goals.CountWhere | files/app.py:304-309 | the count never exceeds the number of students |
| Goals.CountWhereExtremes | files/app.py:304-309 | the count is the number of students exactly when all hit, and 0 exactly when none does |
| Goals.CountGoalHits | files/app.py:304-310 | the student loop counts those whose week minutes reach their goal |
| Goals.WeekCounts | files/app.py:303-310 | one count per subject in `SUBJECTS` order, each the number of students reaching that goal |
| Goals.WeekRowsAt | files/app.py:301-311 | row `i` of the chart is the row of week `i`, with as many rows as weeks |
| Goals.GoalChartRows | files/app.py:297-311 | the nested loops build exactly the chart value for the month of `today` |
| Goals.GoalChartShape | files/app.py:297-311 | one row per window of `get_month_weeks`, in order and labelled by it; each subject's count is between 0 and the number of students, 0 exactly when nobody hits, all exactly when everyone does, so zero students give zero counts |
| Sheets.NextId | sheets_db.py:87-91 | 1 for an empty table; otherwise greater than every id and one more than some id; `None` exactly when some id cell does not read as an integer |
| Sheets.NextIdKeepsDistinct | sheets_db.py:87-91 | appending a record with the next id keeps the ids distinct |
| Sheets.RowOf | sheets_db.py:97-105 | the row returned lies between 2 and the number of records plus 1 |
| Sheets.RowOfMeaning | sheets_db.py:97-105 | `None` exactly when no record's cell equals the value as strings; otherwise `i + 2` for the first record `i` that does |
| Sheets.FirstMatchUnique | sheets_db.py:102-104 | only one record can be the first match |
| Sheets.FirstMatchAt | sheets_db.py:97-105 | the first match is at the returned row minus 2, and there is none when `None` is returned |
| Sheets.FindRow | sheets_db.py:97-105 | the search loop returns exactly that row |
| Sheets.RowOfNumericIds | sheets_db.py:97-105 | on an all-numeric id column, the row found holds the id and no earlier row does; `None` when the id is absent |
| Sheets.OldNamesMeaning | sheets_db.py:117-119 | the old-name map has exactly the numeric staff ids as keys, each mapped to the name of the last record with that id |
| Sheets.RenameStaff | sheets_db.py:121-124 | the first staff record with the id gets the new name; every other record is unchanged |
| Sheets.RenameLogs | sheets_db.py:132-134 | log rows with the old staff name get the new one, all others are unchanged, and no row keeps the old name when the names differ |
| Sheets.LogsAfterLength | sheets_db.py:115-134 | the renames never add or drop log rows |
| Sheets.LogsAfterSnoc | sheets_db.py:121-134 | one more pair is one more rename pass over the log the earlier pairs left |
| Sheets.LogsAfterUntouched | sheets_db.py:126-134 | a log row whose staff name is none of the old names involved is left unchanged |
| Sheets.LastOldNameGone | sheets_db.py:126-134 | after the renames, no log row carries the last pair's old name when that name is non-empty and differs from the new one |
| Sheets.RenameChain | sheets_db.py:121-134 | with A→B then B→C, the logs of both A and B end up as C, and other logs are unchanged |
| Sheets.RenameSwapMerges | sheets_db.py:121-134 | swapping two names (A→B then B→A) leaves every log of either staff under A and none under B |
| Sheets.RenameMovesMinutes | sheets_db.py:132-134 | a rename moves the old name's minutes onto the new name and leaves the old name none |
| Sheets.RenameMovesSessionMinutes | sheets_db.py:126-134 | for every student, subject and window, a rename moves the old name's session minutes onto the new name, leaves the old name none, and leaves every other name's minutes as they were |
| Sheets.RenameMovesBreakdown | sheets_db.py:126-134 | seen through `staff_breakdown` for any student, subject and window: the keys stay, the old name's bucket becomes 0, the new name's bucket gains the old one's minutes when both are rostered, and every other bucket is unchanged |
| Sheets.StaffAfterKeepsIds | sheets_db.py:121-124 | renames keep the staff table's length, ids and colors |
| Sheets.CoerceLog | sheets_db.py:199-203 | ids read as integers or `None`, minutes read as integers or 0, the date parses or is `None`, and a missing note becomes "" |
| Sheets.GetLogsRows | sheets_db.py:193-204 | one coerced row per record, in order |
| Sheets.GetLogsAppend | sheets_db.py:193-204 | coercion distributes over concatenation of records |
| Sheets.GetLogsNonNegative | sheets_db.py:201 | records whose minutes read as non-negative or not at all give non-negative minutes |
| Sheets.GetStudents | sheets_db.py:137-148 | `None` exactly when some id does not read as an integer; otherwise one student per record, in order |
| Sheets.CoerceStudentGoal | sheets_db.py:144-147 | a goal cell that does not read as an integer gives a goal of 60; otherwise its integer |
| Sheets.GetStudentsSnoc | sheets_db.py:137-148 | reading a table with one record appended reads the old table plus that record |
| Sheets.NewStudentReadBack | sheets_db.py:150-157 | the new record reads back with the given name and grade, active subject "Math", and goals defaulting to 60, 90 and 45 |
| Sheets.AddStudentReadBack | sheets_db.py:150-157 | after `add_student` the table reads back as before plus the new student, whose id is greater than every existing one |
| Sheets.WithGoalsMeaning | sheets_db.py:166-177 | writing goals keeps id, name, grade and active subject; each recognised subject's goal is its last given value, or unchanged when none is given |
| Sheets.UpdateStudentRows | sheets_db.py:159-177 | only the first record with the id changes, getting the name when one is given and non-empty and then the goals; with no match nothing changes |
| Sheets.UpdateStudentKeepsIds | sheets_db.py:159-177 | `update_student` keeps the id column |
| Sheets.ChangeSubjectRows | sheets_db.py:179-185 | only the first matching record's active subject cell is written |
| Sheets.ChangeSubjectReadBack | sheets_db.py:179-185 | after the change the student reads back with that active subject and otherwise as before, and every other student reads as before |
| Sheets.ChangeSubjectKeepsIds | sheets_db.py:179-185 | `update_student_subject` keeps the id column |
| Sheets.DeleteStudentRows | sheets_db.py:187-190 | the first record with the id is removed and the rest stay in order; with no match nothing changes |
| Sheets.DeleteKeepsLaterDuplicate | sheets_db.py:187-190 | only the first of two records with the same id is removed |
| Sheets.DeleteKeepsDistinctIds | sheets_db.py:187-190 | deleting keeps distinct ids distinct |
| Sheets.AddLogReadBack | sheets_db.py:206-212 | the appended log record reads back as exactly the values given, after the rows before it; its date reads back as given when a timestamp can hold it, and as `NaT` otherwise |
| Sheets.AddLogStudentMinutes | sheets_db.py:206-212 | after `add_log`, each student's minutes change only by the new session's minutes, and only for its student, subject and window; a date outside the timestamp range adds to no window |
| Sheets.SheetsDB.WriteGoals | sheets_db.py:172-177 | the goal loop leaves the record that writing the pairs in order gives |
| Sheets.SheetsDB.RenameInLogs | sheets_db.py:129-134 | the log table becomes the renamed log; the other tables are unchanged |
| Sheets.SheetsDB.RenameStaffRecord | sheets_db.py:122-124 | the staff table becomes the renamed table; the other tables are unchanged |
| Sheets.SheetsDB.UpdateStaffNames | sheets_db.py:115-134 | after all pairs, staff and logs are the pairwise renames in order, using the names captured up front; students are unchanged |
| Sheets.SheetsDB.AddStudent | sheets_db.py:150-157 | exactly one record, the new student with the next id, is appended; nothing changes when the next id cannot be computed |
| Sheets.SheetsDB.UpdateStudent | sheets_db.py:159-177 | the students table becomes the updated rows; staff and logs are unchanged |
| Sheets.SheetsDB.UpdateStudentSubject | sheets_db.py:179-185 | the students table becomes the subject-changed rows; staff and logs are unchanged |
| Sheets.SheetsDB.DeleteStudent | sheets_db.py:187-190 | the students table loses its first matching record; the logs stay, orphaned sessions included |
| Sheets.SheetsDB.AddLog | sheets_db.py:206-212 | exactly one log record is appended, with the next id and the given fields; nothing changes when the next id cannot be computed |

## Left out

- Streamlit layout, widgets, CSS, HTML strings and the Plotly figure: presentation only. The figures the page shows are modelled; the drawing is not.
- `progress_bar_html`: its percentages are floating point. The green colour shown when `total >= goal` is the card's `goalMet`.
- Session caching (`refresh`, `load_students`, `load_logs`, `load_staff`, `st.session_state`): UI cache state.
- gspread authentication, the worksheet bootstrap (`__init__`, `_get_or_create_sheet`, `_ensure_sheets`) and the seeding of `DEFAULT_STAFF`: network I/O. The worksheets are given as the initial tables of `SheetsDB`.
- `get_staff` and `_ws_to_df`: the staff roster is passed to the aggregation as a sequence of names. So `get_staff`'s fallback to `DEFAULT_STAFF` for an empty sheet and its `astype(int)` on the id column are not modelled.
- `render_log_session` and `render_add_student` form validation: UI input handling.
- `date.today()`: the reference day is a parameter.
- Header lookups (`headers.index(...)`): the model assumes the header row holds every expected column. A missing column, where the source raises `ValueError`, is not modelled.
- Cells.IntValue: models `int()`/`to_numeric` only on an optional minus sign followed by decimal digits. Floats, surrounding whitespace and a leading `+` are not modelled.
- Cells.DateValue: parses only the ISO `YYYY-MM-DD` text that `add_log` writes. The other formats pandas accepts, and numeric cells in the date column, read as unparsed. The timestamp range follows pandas 2.x, whose parse gives nanosecond timestamps. A pandas version with other timestamp resolutions would read more days.
- The numeric conversion gspread applies to text cells such as names and grades: names, grades, subjects and staff names are kept as text.
- The model treats every sum as exact. After `astype(int)` the minutes column is numpy int64. So `subset["minutes"].sum()` in `student_minutes` and in the summary row wraps around past 2^63 − 1. `staff_breakdown` adds Python ints and does not wrap. Values that do not fit int64 in `astype(int)` are not modelled either.
- `Int64` missing ids in the log compare false against every student id: `None` in the model.
- Dates after 9999-12-31 are `None` in the model. Python raises `OverflowError` in `get_week_range` and `ValueError` in `get_month_range` and `get_month_weeks`.
- Dict iteration order: `update_staff_names` and `update_student` take their dict arguments as sequences of pairs in iteration order.
