/**
  Per-student attendance statistics, as the attendance list and the student
  attendance profile compute them, and the profile's permission check.
 */
module StudentStatistics {
  import opened AttendanceModel

  /**
    A student's statistics: all of the student's records, those marked
    present, late and absent, and the share of present records in percent.
   */
  datatype Stats = Stats(total: nat, present: nat, late: nat, absent: nat, percentage: real)

  /** present_count / total_sessions * 100, or 0 when there is no record. */
  function Percentage(present: nat, total: nat): (p: real)
    requires present <= total
    ensures 0.0 <= p <= 100.0
    ensures p == 0.0 <==> present == 0
    ensures p == 100.0 <==> total > 0 && present == total
    ensures total > 0 ==> p * (total as real) == 100.0 * (present as real)
  {
    if total > 0 then
      var ratio := present as real / total as real;
      assert ratio * total as real == present as real;
      assert ratio <= 1.0 by {
        assert present as real <= total as real;
      }
      ratio * 100.0
    else 0.0
  }

  /**
    The three status counts of a student never add up to more than the
    student's records, since a record has one status.
   */
  lemma {:induction false} StatusCountsWithinTotal(records: seq<AttendanceRecord>, student: int)
    ensures CountWithStatus(records, student, PresentStatus)
          + CountWithStatus(records, student, LateStatus)
          + CountWithStatus(records, student, AbsentStatus)
         <= CountOfStudent(records, student)
  {
    if records != [] {
      StatusCountsWithinTotal(records[..|records| - 1], student);
    }
  }

  /** The statistics of one student over the records table. */
  function StudentStats(records: seq<AttendanceRecord>, student: int): (s: Stats)
    ensures s.total == CountOfStudent(records, student)
    ensures s.present == CountWithStatus(records, student, PresentStatus)
    ensures s.late == CountWithStatus(records, student, LateStatus)
    ensures s.absent == CountWithStatus(records, student, AbsentStatus)
    ensures s.present + s.late + s.absent <= s.total
    ensures 0.0 <= s.percentage <= 100.0
    ensures s.total == 0 ==> s.present == 0 && s.late == 0 && s.absent == 0 && s.percentage == 0.0
    ensures s.percentage == 0.0 <==> s.present == 0
    ensures s.percentage == Percentage(s.present, s.total)
  {
    var total := CountOfStudent(records, student);
    var present := CountWithStatus(records, student, PresentStatus);
    var late := CountWithStatus(records, student, LateStatus);
    var absent := CountWithStatus(records, student, AbsentStatus);
    StatusCountsWithinTotal(records, student);
    Stats(total, present, late, absent, Percentage(present, total))
  }

  /** One row of the attendance list. */
  datatype StudentRow = StudentRow(student: int, stats: Stats)

  /** The attendance list: one row per student, in the students' order. */
  method AttendanceList(students: seq<int>, records: seq<AttendanceRecord>) returns (rows: seq<StudentRow>)
    ensures |rows| == |students|
    ensures forall i :: 0 <= i < |rows| ==> rows[i].student == students[i]
    ensures forall i :: 0 <= i < |rows| ==> rows[i].stats == StudentStats(records, students[i])
  {
    rows := [];
    for k := 0 to |students|
      invariant |rows| == k
      invariant forall i :: 0 <= i < k ==> rows[i] == StudentRow(students[i], StudentStats(records, students[i]))
    {
      var student := students[k];
      rows := rows + [StudentRow(student, StudentStats(records, student))];
    }
  }

  /** What the student attendance profile page shows. */
  datatype ProfileView =
    | NotFound
    | RedirectToOwn(userId: int)
    | Show(student: int, stats: Stats)

  /**
    The student attendance profile: 404 unless the id is a student's; a
    student viewing someone else's profile is sent to their own; otherwise the
    student's statistics are shown.
   */
  function StudentProfile(users: map<int, User>, records: seq<AttendanceRecord>, viewerId: int, viewer: User, studentId: int): (v: ProfileView)
    ensures v.NotFound? <==> !(studentId in users && users[studentId].role == StudentRole)
    ensures v.RedirectToOwn? <==> !v.NotFound? && viewer.role == StudentRole && viewerId != studentId
    ensures v.RedirectToOwn? ==> v.userId == viewerId
    ensures v.Show? ==> viewer.role != StudentRole || viewerId == studentId
    ensures v.Show? ==> v.student == studentId && v.stats == StudentStats(records, studentId)
  {
    if !(studentId in users && users[studentId].role == StudentRole) then NotFound
    else if viewer.role == StudentRole && viewerId != studentId then RedirectToOwn(viewerId)
    else Show(studentId, StudentStats(records, studentId))
  }
}
