/**
  The attendance session detail page: every student of the session's classroom
  together with the student's record in the session, if any.
 */
module SessionDetail {
  import opened AttendanceModel

  /**
    The session's records keyed by student id. Records are taken in order, so
    when a student has several records in the session the later one wins.
   */
  function RecordsByStudent(records: seq<AttendanceRecord>): (m: map<int, AttendanceRecord>)
    ensures forall k :: k in m ==> m[k].student == k
  {
    if records == [] then map[]
    else
      var last := records[|records| - 1];
      RecordsByStudent(records[..|records| - 1])[last.student := last]
  }

  /**
    record is what the session's records say about student: the student's
    last record, or None when the student has none.
   */
  ghost predicate IsLatestRecordOf(records: seq<AttendanceRecord>, student: int, record: Option<AttendanceRecord>)
  {
    match record
    case None => forall j :: 0 <= j < |records| ==> records[j].student != student
    case Some(r) =>
      exists i :: 0 <= i < |records| && records[i] == r && r.student == student &&
        forall j :: i < j < |records| ==> records[j].student != student
  }

  /** The lookup by student id gives each student's last record in the session. */
  lemma {:induction false} RecordsByStudentKeepsLast(records: seq<AttendanceRecord>, student: int)
    ensures var m := RecordsByStudent(records);
      IsLatestRecordOf(records, student, if student in m then Some(m[student]) else None)
  {
    if records != [] {
      var n := |records| - 1;
      var prefix := records[..n];
      RecordsByStudentKeepsLast(prefix, student);
      var m := RecordsByStudent(prefix);
      if records[n].student == student {
        assert records[n] == RecordsByStudent(records)[student];
      } else if student in m {
        var i :| 0 <= i < |prefix| && prefix[i] == m[student] && m[student].student == student &&
          forall j :: i < j < |prefix| ==> prefix[j].student != student;
        assert records[i] == prefix[i];
        assert forall j :: i < j < |records| ==> records[j].student != student by {
          forall j | i < j < |records| ensures records[j].student != student {
            if j < n { assert records[j] == prefix[j]; }
          }
        }
      } else {
        assert forall j :: 0 <= j < |records| ==> records[j].student != student by {
          forall j | 0 <= j < |records| ensures records[j].student != student {
            if j < n { assert records[j] == prefix[j]; }
          }
        }
      }
    }
  }

  /** One line of the roster: the student, the student's record, and the status shown. */
  datatype RosterEntry = RosterEntry(student: int, record: Option<AttendanceRecord>, status: string)

  /**
    entries lists every student exactly once, in order, each with the student's
    last record in the session and that record's status, or not_marked.
   */
  ghost predicate IsRoster(students: seq<int>, records: seq<AttendanceRecord>, entries: seq<RosterEntry>)
  {
    && |entries| == |students|
    && forall i :: 0 <= i < |entries| ==>
      && entries[i].student == students[i]
      && IsLatestRecordOf(records, students[i], entries[i].record)
      && entries[i].status == (if entries[i].record.Some? then entries[i].record.value.status else NotMarked)
  }

  /** Combines the classroom's students with their attendance status in the session. */
  method MergeRoster(students: seq<int>, records: seq<AttendanceRecord>) returns (entries: seq<RosterEntry>)
    ensures IsRoster(students, records, entries)
  {
    var recordsDict := RecordsByStudent(records);
    entries := [];
    for k := 0 to |students|
      invariant IsRoster(students[..k], records, entries)
    {
      var student := students[k];
      var record := if student in recordsDict then Some(recordsDict[student]) else None;
      RecordsByStudentKeepsLast(records, student);
      entries := entries + [RosterEntry(student, record, if record.Some? then record.value.status else NotMarked)];
    }
    assert students[..|students|] == students;
  }

  /** What the session detail page shows. */
  datatype SessionDetailContext = SessionDetailContext(session: Session, studentAttendance: seq<RosterEntry>, canEdit: bool)

  /**
    The session detail page for viewer, given the students of the session's
    classroom and the session's records: the roster, and whether the viewer may
    edit, which holds exactly for the session's teacher.
   */
  method AttendanceSessionDetail(session: Session, students: seq<int>, records: seq<AttendanceRecord>, viewer: int)
    returns (context: SessionDetailContext)
    ensures context.session == session
    ensures IsRoster(students, records, context.studentAttendance)
    ensures context.canEdit <==> session.teacher == viewer
  {
    var studentAttendance := MergeRoster(students, records);
    context := SessionDetailContext(session, studentAttendance, session.teacher == viewer);
  }
}
