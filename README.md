# Attendance bookkeeping of the Smart Class school-management application

This project models, in Dafny, the two pieces of attendance bookkeeping that the
application spells out as rules, and proves properties of them.

1. **Custom attendance counters** (`tally.dfy`, module `AttendanceTally`). A
   student's custom attendance record holds `present_count`, `late_count` and
   `absent_count` against a separately stored number of sessions. Setting the
   present count keeps late and recomputes absent as what the sessions leave
   over (never below zero). Setting the absent count shares what is left
   between present and late in their former ratio, truncating the present
   share and giving late the rest. If there was no present or late before,
   everything goes to present; if nothing is left, both become zero. A final
   validation lowers absent when the three counters exceed the sessions. The
   record is the class `CustomAttendance`, whose methods reassign its three
   fields. Each method is proved equal to a function on the `Tally` value
   (`WithPresent`, `WithAbsent`, `Clamped`), and the lemmas are stated about
   those functions.
2. **Attendance records in the attendance views** (`records.dfy`,
   `statistics.dfy`, `session_detail.dfy`, `mark_attendance.dfy`). The
   database is a value `Db`: users keyed by id, and the session and record
   tables as sequences in primary-key order.
   - The session detail page joins the classroom's students with the session's
     records looked up by student id. A student with no record is shown as
     `not_marked`.
   - The marking endpoint either quick-marks a student or updates a record by
     its key. A quick mark finds today's active session of the student's
     classroom, or opens one. It then does get-or-create on the student's
     record in that session and stamps the record.
   - The class `AttendanceStore` holds the tables in fields and changes them in
     place. The function `Mark` states the new tables and the reply, and the
     lemmas are stated about `Mark`.
   - The attendance list and the student profile count a student's records by
     status and compute a zero-guarded percentage. The profile also checks
     that a student views only their own profile.

Time and date are parameters (`now`, `today`). The same `today` dates a new
quick session and is compared with every session's date. The JSON body arrives already
parsed as a `MarkRequest`. The viewer is passed as a user id.

The script closes by printing what its logic is meant to ensure
(test_attendance_logic.py:160-164): raising present or late lowers absent,
raising absent lowers present and late in proportion, the total never exceeds
the sessions, and all counts stay non-negative. Where the script's code
disagrees with that summary, the model follows the code:

- The absent-then-clamp script applies the final clamp only after its third
  step. Here `Clamp` is a separate operation, and `AbsentThenClampMatchesTotal`
  shows what it gives after an absent update.
- The summary mentions late updates (line 161), but the code has no branch
  that sets `late_count` directly (see "Left out").
- A present update on its own can leave the counters above the number of
  sessions, against line 163 of the summary. The final clamp cannot fix that, because it lowers only absent.
  `PresentUpdateCanExceedTotal` exhibits this: 30 sessions, 5 late, present set
  to 28.

The ratio split uses `TruncDiv`: the exact quotient rounded toward zero, which
is Python's `int()` of an exact value. The source multiplies by a
floating-point ratio instead, so its result can be one lower than the model's
when the float product falls just below an integer. For instance, with 1
present, 48 late and 49 sessions remaining, `49 * (1/49)` is
`0.9999999999999999` in IEEE double arithmetic. The source then gives 0
present and 49 late, where the model gives 1 and 48.

## Model

| member | source | states |
|---|---|---|
| AttendanceTally.TruncDiv | test_attendance_logic.py:113-116 | int() of the exact ratio: the quotient rounded toward zero, bounded by d*q <= n < d*(q+1) for n >= 0 and the mirror bounds for n < 0 |
| AttendanceTally.WithPresent | test_attendance_logic.py:85-88 | present becomes v and late is kept; absent is never negative; if v + late <= total the three sum to exactly total, and if v + late >= total absent is 0 |
| AttendanceTally.WithAbsent | test_attendance_logic.py:99-125 | absent becomes a; if a >= total, present and late are both 0; if a < total, present + late = total - a; with no prior present or late, all of it goes to present |
| AttendanceTally.Clamped | test_attendance_logic.py:147-151 | only absent can change; counters within total are left alone; otherwise absent is non-negative and the sum becomes total (or present + late if that alone exceeds total); absent never rises if it was non-negative; sum <= total whenever present + late <= total |
| AttendanceTally.WithAbsentSplitsByRatio | test_attendance_logic.py:108-117 | with non-negative prior counts and a < total: present is the floor of (total - a) * p / (p + l) (both bounds stated), late gets at least its exact share, and both are non-negative |
| AttendanceTally.OperationsKeepNonNegative | test_attendance_logic.py:160-164 | from non-negative counters and a non-negative requested value, every operation leaves all three counters non-negative |
| AttendanceTally.AbsentThenClampMatchesTotal | test_attendance_logic.py:133-151 | an absent update followed by the final clamp accounts for exactly total sessions, whatever absent value was requested |
| AttendanceTally.UpdatesAreIdempotent | test_attendance_logic.py:85-151 | applying the same present update, absent update or clamp twice gives the same counters as applying it once; for the absent update this holds for the exact split only (see Left out) |
| AttendanceTally.PresentUpdateCanExceedTotal | test_attendance_logic.py:85-88 | with 30 sessions and 5 late, setting present to 28 gives (28, 5, 0), and the clamp leaves the sum at 33 |
| AttendanceTally.CustomAttendance.SetPresent | test_attendance_logic.py:85-88 | the record's counters become WithPresent of the old counters; late_count is unchanged |
| AttendanceTally.CustomAttendance.SetAbsent | test_attendance_logic.py:99-125 | the record's counters become WithAbsent of the old counters; for a < total they add up to total |
| AttendanceTally.CustomAttendance.Clamp | test_attendance_logic.py:147-151 | the record's counters become Clamped of the old counters; present and late unchanged |
| AttendanceTally.WorkedScenario | test_attendance_logic.py:43-157 | with 30 sessions from (20, 5, 5): present to 25 gives (25, 5, 0), absent to 15 gives (12, 3, 15), absent to 35 gives (0, 0, 35), and the clamp gives (0, 0, 30) |
| AttendanceModel.CountOfStudent | views_fixed.py:33 | the number of a student's records is at most the table size, and is 0 exactly when no record belongs to the student |
| AttendanceModel.CountWithStatus | views_fixed.py:34-36 | a status count of a student never exceeds the student's record count, and is 0 exactly when no record of the student carries that status |
| AttendanceModel.CountFor | views_fixed.py:250-254 | the number of records of a student in a session is 0 exactly when there is no such record |
| StudentStatistics.Percentage | views_fixed.py:38 | the percentage is 0 when there is no record; it lies in [0, 100]; it is 0 exactly when present is 0 and 100 exactly when every record is present; otherwise percentage * total = 100 * present |
| StudentStatistics.StatusCountsWithinTotal | views_fixed.py:33-36 | present + late + absent counts of a student never exceed the student's record count |
| StudentStatistics.StudentStats | views_fixed.py:310-316 | the total is the student's record count; present, late and absent are the counts of the student's records with that status; the three together are at most the total; the percentage is in [0, 100], 0 with no records, and 0 exactly when nothing is present |
| StudentStatistics.AttendanceList | views_fixed.py:29-47 | one row per listed student, in order, each carrying that student's statistics |
| StudentStatistics.StudentProfile | views_fixed.py:297-316 | 404 exactly when the id is not a student's; a student viewing another's profile, and only then, is redirected to their own; a shown profile is the viewer's own unless the viewer is not a student, and carries the student's statistics |
| SessionDetail.RecordsByStudent | views_fixed.py:196 | every key of the lookup is the student id of the record it maps to |
| SessionDetail.RecordsByStudentKeepsLast | views_fixed.py:195-196 | a student is in the lookup exactly when the student has a record in the session, and then it maps to that student's last record (later records overwrite earlier ones) |
| SessionDetail.MergeRoster | views_fixed.py:198-206 | one entry per classroom student, in the student list's order, with the student's last record in the session and its status, or no record and not_marked |
| SessionDetail.AttendanceSessionDetail | views_fixed.py:183-213 | the page carries the session and the roster; can_edit holds exactly when the viewer is the session's teacher |
| MarkAttendance.MessageText | views_fixed.py:263-295 | the endpoint words every reply itself, except those that carry a raised exception's text |
| MarkAttendance.Marked | views_fixed.py:256-260 | a saved record keeps its key, session and student, and carries the requested status, the current time and the viewer as marker |
| MarkAttendance.SessionForToday | views_fixed.py:231-247 | records and users are untouched; the sessions are kept and at most one is added; the session used belongs to the student's classroom and is dated today |
| MarkAttendance.UpsertRecord | views_fixed.py:250-261 | get_or_create succeeds exactly when the student has at most one record in the session, else it raises MultipleRecordsReturned and nothing changes; users and sessions are untouched; success replies "marked as" the status with a record key |
| MarkAttendance.UpsertRecordEffect | views_fixed.py:250-261 | on consistent tables, a successful get-or-create-and-save leaves exactly one record of the student in the session, stamped with the status, time and marker, and the key in the reply finds it |
| MarkAttendance.QuickMark | views_fixed.py:226-267 | users are untouched; an id that is not a student's raises StudentDoesNotExist and changes nothing; success replies "marked as" the status with a record key, and only for a student with a classroom |
| MarkAttendance.UpdateRecord | views_fixed.py:269-281 | succeeds exactly when some record has the key, else raises RecordDoesNotExist and changes nothing; users, sessions and the number of records are untouched; success replies "updated to" the status with that key |
| MarkAttendance.Mark | views_fixed.py:216-295 | users are untouched; a non-POST gets "Invalid request method" and changes nothing; a reply names a record exactly when it succeeds, and a success is a POST whose message is "marked as" or "updated to" the requested status |
| MarkAttendance.FirstActiveSession | views_fixed.py:231-236 | the result is the first session (by key) that is active today for the classroom, or None when there is none |
| MarkAttendance.IndexFor | views_fixed.py:250-254 | the position found holds a record of that student in that session |
| MarkAttendance.IndexOfId | views_fixed.py:271 | the position found holds the record with that key, or None when no record has it |
| MarkAttendance.MarkPreservesValid | views_fixed.py:238-261 | every request keeps keys increasing and below the next key, and keeps every record's session key already handed out |
| MarkAttendance.MarkFailureChangesNothing | views_fixed.py:283-295 | a failed request changes no table and names no record; a non-POST gets "Invalid request method"; a POST with neither quick_mark and student_id nor record_id gets "Invalid request parameters" |
| MarkAttendance.QuickMarkOutcome | views_fixed.py:226-261 | a quick mark fails with StudentDoesNotExist when the id is not a student's, with NoStudentProfile when the student has no classroom, and with MultipleRecordsReturned when the student has several records in the session used; otherwise it succeeds; a failure changes nothing |
| MarkAttendance.QuickMarkEffect | views_fixed.py:226-267 | a successful quick mark leaves exactly one record of the student in the session used, with the requested status, marked now by the viewer, and the reply names it; that session is the classroom's first active session today, or else a new one opened by the viewer for today |
| MarkAttendance.MarkChangesOnlyNamedRecord | views_fixed.py:250-281 | a request changes no user and no record other than the one its reply names; it adds at most that one record and at most one session, and keeps the existing sessions |
| MarkAttendance.UpdateByIdEffect | views_fixed.py:269-281 | marking by key succeeds exactly when a record has that key (else the record-missing error); it sets that record's status, time and marker and leaves all other records and the sessions unchanged |
| MarkAttendance.SessionForTodayStable | views_fixed.py:231-247 | once today's session is found or opened, looking again finds the same session, provided new sessions start active |
| MarkAttendance.UpsertRecordStable | views_fixed.py:250-261 | repeating a successful get-or-create-and-save changes nothing more and gives the same reply |
| MarkAttendance.MarkIdempotent | views_fixed.py:216-295 | repeating a request at once, at the same time and by the same viewer, leaves the tables as the first call left them and gives the same reply, provided new sessions start active |
| MarkAttendance.AttendanceStore.MarkAjax | views_fixed.py:216-295 | the tables and the reply are those Mark gives for the old tables; the key invariant is kept |
| MarkAttendance.AttendanceStore.QuickMarkStudent | views_fixed.py:226-267 | the tables and the reply are those of the quick-mark branch of Mark |
| MarkAttendance.AttendanceStore.GetOrCreateAndSave | views_fixed.py:250-261 | get-or-create then stamp and save yields the tables and reply of UpsertRecord |
| MarkAttendance.AttendanceStore.UpdateRecordStatus | views_fixed.py:269-281 | the tables and the reply are those of the mark-by-key branch of Mark |

## Left out

- Django setup, creating the tally records (`get_or_create`), saving them, and all printing in test_attendance_logic.py: only the arithmetic on the counters is modelled. The number of sessions is a parameter.
- Setting `late_count` directly: the script has no such branch. The production view it says it copies (views.py) is not part of this model.
- AttendanceTally.WithAbsent: the source's float multiplication is modelled as exact truncated division, which can give one more present (and one less late) than the float result, as explained above.
- AttendanceTally.UpdatesAreIdempotent: the absent update is idempotent only with the exact split. The source's float split is not: with 49 sessions remaining and a prior present/late of (1, 47), `49 * (1/48)` gives (1, 48), and a second call gives `49 * (1/49) = 0.9999999999999999`, so (0, 49).
- AttendanceTally.OperationsKeepNonNegative: non-negativity is proved only for non-negative requested values and counters; the source checks neither.
- `quick_mark` is taken as a boolean; the truthiness of other JSON values in that field is not modelled.
- JSON parsing of the request body and its exceptions, `login_required`, template rendering, `messages`, pagination, and `round(..., 1)` of the percentage. The percentage is an exact rational (`real`).
- MarkAttendance.MarkFailureChangesNothing: a request always carries a status here, so a body without `"status"` is not modelled. In the source, `data.get('status')` is then `None`, and it is saved into the record. If the status column rejects null, that save raises, and the reply is `str(e)`. A quick session created just before would then stay. attendance/models.py is not part of this model, so whether the column accepts null is unknown.
- MarkAttendance.MessageText: the text of a raised exception (`str(e)`) is framework text. The model records which exception was raised (`DbError`) but not its wording.
- Query filtering: the session detail page and the attendance list receive the students and the session's records already selected. The 404 for a missing session in the detail page is not modelled.
- The order of `.first()`: sessions are taken in primary-key order. attendance/models.py is not part of this model, so a default ordering it may declare is not modelled. For the same reason, the status a new quick session starts with is a parameter (`Db.newSessionStatus`).
- Time zones: the source takes `today` as `timezone.now().date()` (views_fixed.py:229), the UTC date when time zones are on, but filters on `start_time__date` (views_fixed.py:234), which reads the start time in the current time zone. The two agree only when time zones are off or the current zone is UTC. The settings are not part of this model, and MarkAttendance.SessionForTodayStable and MarkAttendance.MarkIdempotent rely on the single `today`.
- The quick session's title, attendance type and start and end times: only its classroom, teacher, date and status are kept.
- A student profile whose classroom is empty: a user is either without a profile (an error reply) or with a classroom.
- The profile page's list of the 20 most recent records, ordered by session start time.
- Concurrency: two requests racing in `get_or_create`, and saves of the same record that interleave.
- The other views in views_fixed.py (dashboard, session list, session creation, reports) and the rest of the repository: seeding scripts, smoke tests, models, serializers and URL configuration.
