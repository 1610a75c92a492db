/**
  The stored entities the attendance views read and write: users, attendance
  sessions and attendance records. Tables are sequences in primary-key order;
  an identifier is the row's primary key.
 */
module AttendanceModel {

  datatype Option<T> = None | Some(value: T)

  /**
    A user account: its role, and for a student the classroom of the student
    profile (None when the user has no student profile).
   */
  datatype User = User(role: string, classroom: Option<int>)

  /** An attendance session of a classroom, held by a teacher on a date. */
  datatype Session = Session(id: int, classroom: int, teacher: int, date: int, status: string)

  /** One student's attendance in one session, with who marked it and when. */
  datatype AttendanceRecord = AttendanceRecord(
    id: int,
    session: int,
    student: int,
    status: string,
    markedAt: Option<int>,
    markedBy: Option<int>)

  const StudentRole := "student"
  const ActiveStatus := "active"
  const PresentStatus := "present"
  const LateStatus := "late"
  const AbsentStatus := "absent"
  const NotMarked := "not_marked"

  /** The number of records that belong to a student. */
  function CountOfStudent(records: seq<AttendanceRecord>, student: int): (n: nat)
    ensures n <= |records|
    ensures n == 0 <==> forall i :: 0 <= i < |records| ==> records[i].student != student
  {
    if records == [] then 0
    else CountOfStudent(records[..|records| - 1], student) + (if records[|records| - 1].student == student then 1 else 0)
  }

  /** The number of a student's records that carry the given status. */
  function CountWithStatus(records: seq<AttendanceRecord>, student: int, status: string): (n: nat)
    ensures n <= CountOfStudent(records, student)
    ensures n == 0 <==> forall i :: 0 <= i < |records| ==> !(records[i].student == student && records[i].status == status)
  {
    if records == [] then 0
    else
      var last := records[|records| - 1];
      CountWithStatus(records[..|records| - 1], student, status) + (if last.student == student && last.status == status then 1 else 0)
  }

  /** The number of records of one student in one session. */
  function CountFor(records: seq<AttendanceRecord>, session: int, student: int): (n: nat)
    ensures n <= |records|
    ensures n == 0 <==> forall i :: 0 <= i < |records| ==> !(records[i].session == session && records[i].student == student)
  {
    if records == [] then 0
    else
      var last := records[|records| - 1];
      CountFor(records[..|records| - 1], session, student) + (if last.session == session && last.student == student then 1 else 0)
  }
}
