/**
  The endpoint that marks one student's attendance. A quick mark finds (or
  opens) today's active session of the student's classroom and creates or
  updates the student's record in it; a mark by record id updates that record.
  The database is a value of type Db; AttendanceStore holds it in fields and
  changes them in place, and the function Mark states what it becomes.
 */
module MarkAttendance {
  import opened AttendanceModel

  /**
    The tables the endpoint touches. Sessions and records are in primary-key
    order; nextSessionId and nextRecordId are the keys the next inserts get;
    newSessionStatus is the status a newly created session starts with.
   */
  datatype Db = Db(
    users: map<int, User>,
    sessions: seq<Session>,
    records: seq<AttendanceRecord>,
    nextSessionId: int,
    nextRecordId: int,
    newSessionStatus: string)

  /**
    Primary keys increase along each table and stay below the next key, and
    every record refers to a session key already handed out.
   */
  ghost predicate ValidDb(db: Db)
  {
    && (forall i, j :: 0 <= i < j < |db.sessions| ==> db.sessions[i].id < db.sessions[j].id)
    && (forall i :: 0 <= i < |db.sessions| ==> db.sessions[i].id < db.nextSessionId)
    && (forall i, j :: 0 <= i < j < |db.records| ==> db.records[i].id < db.records[j].id)
    && (forall i :: 0 <= i < |db.records| ==> db.records[i].id < db.nextRecordId)
    && (forall i :: 0 <= i < |db.records| ==> db.records[i].session < db.nextSessionId)
  }

  /** The JSON body of a request, already parsed, and whether it was a POST. */
  datatype MarkRequest = MarkRequest(
    isPost: bool,
    studentId: Option<int>,
    recordId: Option<int>,
    status: string,
    quickMark: bool)

  /** Exceptions raised inside the endpoint, which it turns into error replies. */
  datatype DbError =
    | StudentDoesNotExist
    | NoStudentProfile
    | MultipleRecordsReturned
    | RecordDoesNotExist

  /** The message of a reply. */
  datatype Message =
    | MarkedAs(status: string)
    | UpdatedTo(status: string)
    | InvalidParameters
    | InvalidMethod
    | Raised(error: DbError)

  datatype Reply = Reply(success: bool, message: Message, recordId: Option<int>)

  /** The text of a message, for those the endpoint words itself. */
  function MessageText(m: Message): (s: Option<string>)
    ensures s.None? <==> m.Raised?
  {
    match m
    case MarkedAs(status) => Some("Attendance marked as " + status)
    case UpdatedTo(status) => Some("Attendance updated to " + status)
    case InvalidParameters => Some("Invalid request parameters")
    case InvalidMethod => Some("Invalid request method")
    case Raised(_) => None
  }

  function Failure(e: DbError): Reply
  {
    Reply(false, Raised(e), None)
  }

  /** Python truthiness of an optional id: absent, null and 0 are false. */
  predicate Truthy(x: Option<int>)
  {
    x.Some? && x.value != 0
  }

  predicate IsActiveFor(s: Session, classroom: int, today: int)
  {
    s.classroom == classroom && s.date == today && s.status == ActiveStatus
  }

  /** The position of the first session (by key) that is active today for the classroom. */
  function FirstActiveSession(sessions: seq<Session>, classroom: int, today: int): (r: Option<nat>)
    ensures r.Some? ==> r.value < |sessions| && IsActiveFor(sessions[r.value], classroom, today)
    ensures r.Some? ==> forall j :: 0 <= j < r.value ==> !IsActiveFor(sessions[j], classroom, today)
    ensures r.None? ==> forall j :: 0 <= j < |sessions| ==> !IsActiveFor(sessions[j], classroom, today)
  {
    if sessions == [] then None
    else if IsActiveFor(sessions[0], classroom, today) then Some(0)
    else match FirstActiveSession(sessions[1..], classroom, today)
      case None => None
      case Some(i) => Some(i + 1)
  }

  /**
    The position of a record of student in session (the last one, when there
    are several).
   */
  function IndexFor(records: seq<AttendanceRecord>, session: int, student: int): (i: nat)
    requires CountFor(records, session, student) > 0
    ensures i < |records| && records[i].session == session && records[i].student == student
  {
    var n := |records| - 1;
    if records[n].session == session && records[n].student == student then n
    else IndexFor(records[..n], session, student)
  }

  /** The position of the record with the given key. */
  function IndexOfId(records: seq<AttendanceRecord>, id: int): (r: Option<nat>)
    ensures r.Some? ==> r.value < |records| && records[r.value].id == id
    ensures r.None? ==> forall j :: 0 <= j < |records| ==> records[j].id != id
  {
    if records == [] then None
    else if records[0].id == id then Some(0)
    else match IndexOfId(records[1..], id)
      case None => None
      case Some(i) => Some(i + 1)
  }

  /** A record as the endpoint saves it: given status, marked now by viewer. */
  function Marked(r: AttendanceRecord, status: string, viewer: int, now: int): (m: AttendanceRecord)
    ensures m.id == r.id && m.session == r.session && m.student == r.student
    ensures m.status == status && m.markedAt == Some(now) && m.markedBy == Some(viewer)
  {
    r.(status := status, markedAt := Some(now), markedBy := Some(viewer))
  }

  /** Some session in sessions has key id and belongs to classroom on date today. */
  ghost predicate HasSession(sessions: seq<Session>, id: int, classroom: int, today: int)
  {
    exists i :: 0 <= i < |sessions| && sessions[i].id == id && sessions[i].classroom == classroom && sessions[i].date == today
  }

  /**
    Today's active session of the classroom if there is one (the database
    unchanged), otherwise a new session opened by viewer.
   */
  function SessionForToday(db: Db, classroom: int, viewer: int, today: int): (r: (Db, int))
    ensures r.0.users == db.users && r.0.records == db.records && r.0.nextRecordId == db.nextRecordId
    ensures r.0.newSessionStatus == db.newSessionStatus
    ensures |db.sessions| <= |r.0.sessions| <= |db.sessions| + 1 && r.0.sessions[..|db.sessions|] == db.sessions
    ensures HasSession(r.0.sessions, r.1, classroom, today)
  {
    match FirstActiveSession(db.sessions, classroom, today)
    case Some(i) => (db, db.sessions[i].id)
    case None =>
      var s := Session(db.nextSessionId, classroom, viewer, today, db.newSessionStatus);
      assert (db.sessions + [s])[|db.sessions|] == s;
      (db.(sessions := db.sessions + [s], nextSessionId := db.nextSessionId + 1), s.id)
  }

  /**
    get_or_create of the student's record in session, followed by setting its
    status, time and marker and saving it.
   */
  function UpsertRecord(db: Db, session: int, studentId: int, status: string, viewer: int, now: int): (r: (Db, Reply))
    ensures r.0.users == db.users && r.0.sessions == db.sessions && r.0.nextSessionId == db.nextSessionId
    ensures r.1.success <==> CountFor(db.records, session, studentId) <= 1
    ensures !r.1.success ==> r == (db, Failure(MultipleRecordsReturned))
    ensures r.1.success ==> r.1.message == MarkedAs(status) && r.1.recordId.Some?
  {
    var n := CountFor(db.records, session, studentId);
    if n > 1 then (db, Failure(MultipleRecordsReturned))
    else if n == 0 then
      var r := AttendanceRecord(db.nextRecordId, session, studentId, status, Some(now), Some(viewer));
      (db.(records := db.records + [r], nextRecordId := db.nextRecordId + 1), Reply(true, MarkedAs(status), Some(r.id)))
    else
      var i := IndexFor(db.records, session, studentId);
      var r := Marked(db.records[i], status, viewer, now);
      (db.(records := db.records[i := r]), Reply(true, MarkedAs(status), Some(r.id)))
  }

  /** The quick-mark branch for a student id. */
  function QuickMark(db: Db, studentId: int, status: string, viewer: int, today: int, now: int): (r: (Db, Reply))
    ensures r.0.users == db.users
    ensures !(studentId in db.users && db.users[studentId].role == StudentRole) ==> r == (db, Failure(StudentDoesNotExist))
    ensures r.1.success ==>
      && r.1.message == MarkedAs(status) && r.1.recordId.Some?
      && studentId in db.users && db.users[studentId].classroom.Some?
  {
    if !(studentId in db.users && db.users[studentId].role == StudentRole) then (db, Failure(StudentDoesNotExist))
    else if db.users[studentId].classroom.None? then (db, Failure(NoStudentProfile))
    else
      var (db1, session) := SessionForToday(db, db.users[studentId].classroom.value, viewer, today);
      UpsertRecord(db1, session, studentId, status, viewer, now)
  }

  /** The branch that updates the record with a given key. */
  function UpdateRecord(db: Db, recordId: int, status: string, viewer: int, now: int): (r: (Db, Reply))
    ensures r.0.users == db.users && r.0.sessions == db.sessions && |r.0.records| == |db.records|
    ensures r.1.success <==> exists j :: 0 <= j < |db.records| && db.records[j].id == recordId
    ensures !r.1.success ==> r == (db, Failure(RecordDoesNotExist))
    ensures r.1.success ==> r.1 == Reply(true, UpdatedTo(status), Some(recordId))
  {
    match IndexOfId(db.records, recordId)
    case None => (db, Failure(RecordDoesNotExist))
    case Some(i) =>
      var r := Marked(db.records[i], status, viewer, now);
      (db.(records := db.records[i := r]), Reply(true, UpdatedTo(status), Some(r.id)))
  }

  /**
    The whole endpoint: the database afterwards and the reply, for a request
    from viewer on date today at time now.
   */
  function Mark(db: Db, req: MarkRequest, viewer: int, today: int, now: int): (r: (Db, Reply))
    ensures r.0.users == db.users
    ensures !req.isPost ==> r == (db, Reply(false, InvalidMethod, None))
    ensures r.1.success <==> r.1.recordId.Some?
    ensures r.1.success ==> req.isPost && (r.1.message == MarkedAs(req.status) || r.1.message == UpdatedTo(req.status))
  {
    if !req.isPost then (db, Reply(false, InvalidMethod, None))
    else if req.quickMark && Truthy(req.studentId) then QuickMark(db, req.studentId.value, req.status, viewer, today, now)
    else if Truthy(req.recordId) then UpdateRecord(db, req.recordId.value, req.status, viewer, now)
    else (db, Reply(false, InvalidParameters, None))
  }

  /** Appending a record adds one to the count of its student and session. */
  lemma {:induction false} CountForAppend(records: seq<AttendanceRecord>, r: AttendanceRecord, session: int, student: int)
    ensures CountFor(records + [r], session, student)
         == CountFor(records, session, student) + (if r.session == session && r.student == student then 1 else 0)
  {
    assert (records + [r])[..|records|] == records;
  }

  /** Rewriting a record within its own student and session keeps every count. */
  lemma {:induction false} CountForUpdate(records: seq<AttendanceRecord>, i: nat, r: AttendanceRecord, session: int, student: int)
    requires i < |records| && r.session == records[i].session && r.student == records[i].student
    ensures CountFor(records[i := r], session, student) == CountFor(records, session, student)
  {
    var n := |records| - 1;
    if i < n {
      assert records[i := r][..n] == records[..n][i := r];
      CountForUpdate(records[..n], i, r, session, student);
    } else {
      assert records[i := r][..n] == records[..n];
    }
  }

  /** When a student has exactly one record in a session, IndexFor finds it. */
  lemma {:induction false} IndexForUnique(records: seq<AttendanceRecord>, i: nat, session: int, student: int)
    requires i < |records| && records[i].session == session && records[i].student == student
    requires CountFor(records, session, student) == 1
    ensures IndexFor(records, session, student) == i
  {
    var n := |records| - 1;
    if i < n {
      assert records[..n][i] == records[i];
      IndexForUnique(records[..n], i, session, student);
    }
  }

  /** With increasing keys, a key names at most one record. */
  lemma IndexOfIdUnique(db: Db, j: nat)
    requires ValidDb(db) && j < |db.records|
    ensures IndexOfId(db.records, db.records[j].id) == Some(j)
  {
  }

  /** Every request leaves the database's keys and references consistent. */
  lemma MarkPreservesValid(db: Db, req: MarkRequest, viewer: int, today: int, now: int)
    requires ValidDb(db)
    ensures ValidDb(Mark(db, req, viewer, today, now).0)
  {
  }

  /**
    A request that fails changes nothing; a request that is not a POST, or
    names neither a student to quick-mark nor a record, gets the corresponding
    error reply.
   */
  lemma MarkFailureChangesNothing(db: Db, req: MarkRequest, viewer: int, today: int, now: int)
    requires ValidDb(db)
    ensures var (db', reply) := Mark(db, req, viewer, today, now);
      && (!reply.success ==> db' == db && reply.recordId.None?)
      && (!req.isPost ==> reply == Reply(false, InvalidMethod, None))
      && ((req.isPost && !(req.quickMark && Truthy(req.studentId)) && !Truthy(req.recordId))
          ==> reply == Reply(false, InvalidParameters, None))
  {
  }

  /**
    A quick mark succeeds exactly when the id is a student's, the student has
    a classroom, and the student has at most one record in the session used
    (today's active one, or the one opened for it); otherwise it gets the
    matching error and changes nothing.
   */
  lemma QuickMarkOutcome(db: Db, req: MarkRequest, viewer: int, today: int, now: int)
    requires ValidDb(db)
    requires req.isPost && req.quickMark && Truthy(req.studentId)
    ensures var (db', reply) := Mark(db, req, viewer, today, now);
      var student := req.studentId.value;
      && (!(student in db.users && db.users[student].role == StudentRole) ==> reply == Failure(StudentDoesNotExist))
      && (student in db.users && db.users[student].role == StudentRole && db.users[student].classroom.None?
          ==> reply == Failure(NoStudentProfile))
      && (student in db.users && db.users[student].role == StudentRole && db.users[student].classroom.Some? ==>
          var session := SessionForToday(db, db.users[student].classroom.value, viewer, today).1;
          && (reply.success <==> CountFor(db.records, session, student) <= 1)
          && (!reply.success ==> reply == Failure(MultipleRecordsReturned)))
      && (!reply.success ==> db' == db)
  {
  }

  /**
    A successful quick mark of a student leaves exactly one record of the
    student in the session it used, carrying the requested status and marked
    now by the viewer, and the reply names that record. The session used is
    the classroom's first active session of the day when there is one;
    otherwise a session opened by the viewer for today is added.
   */
  lemma QuickMarkEffect(db: Db, req: MarkRequest, viewer: int, today: int, now: int)
    requires ValidDb(db)
    requires req.isPost && req.quickMark && Truthy(req.studentId)
    ensures var (db', reply) := Mark(db, req, viewer, today, now);
      var student := req.studentId.value;
      reply.success ==>
        && student in db.users && db.users[student].role == StudentRole && db.users[student].classroom.Some?
        && reply.message == MarkedAs(req.status) && reply.recordId.Some?
        && IndexOfId(db'.records, reply.recordId.value).Some?
        && var r := db'.records[IndexOfId(db'.records, reply.recordId.value).value];
        && r.student == student && r.status == req.status && r.markedAt == Some(now) && r.markedBy == Some(viewer)
        && CountFor(db'.records, r.session, student) == 1
        && var classroom := db.users[student].classroom.value;
        match FirstActiveSession(db.sessions, classroom, today)
        case Some(i) => db'.sessions == db.sessions && r.session == db.sessions[i].id
        case None =>
          && db'.sessions == db.sessions + [Session(db.nextSessionId, classroom, viewer, today, db.newSessionStatus)]
          && r.session == db.nextSessionId
  {
    var (db', reply) := Mark(db, req, viewer, today, now);
    var student := req.studentId.value;
    if reply.success {
      var classroom := db.users[student].classroom.value;
      var (db1, session) := SessionForToday(db, classroom, viewer, today);
      assert ValidDb(db1) && session < db1.nextSessionId;
      assert (db', reply) == UpsertRecord(db1, session, student, req.status, viewer, now);
      UpsertRecordEffect(db1, session, student, req.status, viewer, now);
    }
  }

  /**
    A successful get_or_create-and-save on consistent tables leaves exactly one
    record of the student in the session, stamped with the status, time and
    marker, and the reply names it by a key no other record has.
   */
  lemma UpsertRecordEffect(db: Db, session: int, student: int, status: string, viewer: int, now: int)
    requires ValidDb(db) && session < db.nextSessionId
    ensures var (db', reply) := UpsertRecord(db, session, student, status, viewer, now);
      reply.success ==>
        && ValidDb(db')
        && IndexOfId(db'.records, reply.recordId.value).Some?
        && var r := db'.records[IndexOfId(db'.records, reply.recordId.value).value];
        && r.session == session && r.student == student
        && r.status == status && r.markedAt == Some(now) && r.markedBy == Some(viewer)
        && CountFor(db'.records, session, student) == 1
  {
    var (db', reply) := UpsertRecord(db, session, student, status, viewer, now);
    if reply.success {
      var n := CountFor(db.records, session, student);
      if n == 0 {
        CountForAppend(db.records, db'.records[|db.records|], session, student);
        assert ValidDb(db');
        IndexOfIdUnique(db', |db.records|);
      } else {
        var i := IndexFor(db.records, session, student);
        CountForUpdate(db.records, i, db'.records[i], session, student);
        assert ValidDb(db');
        IndexOfIdUnique(db', i);
      }
    }
  }

  /**
    A request changes no record other than the one its reply names, adds at
    most that one record and at most one session, and never touches users.
   */
  lemma MarkChangesOnlyNamedRecord(db: Db, req: MarkRequest, viewer: int, today: int, now: int)
    requires ValidDb(db)
    ensures var (db', reply) := Mark(db, req, viewer, today, now);
      && db'.users == db.users
      && |db.sessions| <= |db'.sessions| <= |db.sessions| + 1 && db'.sessions[..|db.sessions|] == db.sessions
      && |db.records| <= |db'.records| <= |db.records| + 1
      && (forall j :: 0 <= j < |db.records| && reply.recordId != Some(db.records[j].id) ==> db'.records[j] == db.records[j])
      && (forall j :: |db.records| <= j < |db'.records| ==> reply.recordId == Some(db'.records[j].id))
  {
  }

  /**
    Marking by record key succeeds exactly when a record has that key; it then
    gives that record the requested status, marked now by the viewer, and
    leaves every other record and all sessions as they were.
   */
  lemma UpdateByIdEffect(db: Db, req: MarkRequest, viewer: int, today: int, now: int)
    requires ValidDb(db)
    requires req.isPost && !(req.quickMark && Truthy(req.studentId)) && Truthy(req.recordId)
    ensures var (db', reply) := Mark(db, req, viewer, today, now);
      var key := req.recordId.value;
      && (reply.success <==> exists j :: 0 <= j < |db.records| && db.records[j].id == key)
      && (!reply.success ==> reply.message == Raised(RecordDoesNotExist))
      && (reply.success ==>
          && reply == Reply(true, UpdatedTo(req.status), Some(key))
          && db'.sessions == db.sessions && |db'.records| == |db.records|
          && forall j :: 0 <= j < |db.records| ==>
               db'.records[j] == if db.records[j].id == key then Marked(db.records[j], req.status, viewer, now) else db.records[j])
  {
    var (db', reply) := Mark(db, req, viewer, today, now);
    var key := req.recordId.value;
    if reply.success {
      var i := IndexOfId(db.records, key).value;
      forall j | 0 <= j < |db.records| && db.records[j].id == key ensures j == i {
        IndexOfIdUnique(db, j);
      }
    }
  }

  /**
    Once today's session is found or opened, looking again finds the same
    session, provided a new session starts out active.
   */
  lemma SessionForTodayStable(db: Db, db2: Db, classroom: int, viewer: int, today: int)
    requires db.newSessionStatus == ActiveStatus
    requires db2.sessions == SessionForToday(db, classroom, viewer, today).0.sessions
    ensures SessionForToday(db2, classroom, viewer, today) == (db2, SessionForToday(db, classroom, viewer, today).1)
  {
    var (db1, session) := SessionForToday(db, classroom, viewer, today);
    var found := FirstActiveSession(db2.sessions, classroom, today);
    if FirstActiveSession(db.sessions, classroom, today).None? {
      assert IsActiveFor(db1.sessions[|db.sessions|], classroom, today);
      assert found == Some(|db.sessions|);
    }
  }

  /** Repeating a successful get_or_create-and-save changes nothing more. */
  lemma UpsertRecordStable(db: Db, session: int, studentId: int, status: string, viewer: int, now: int)
    ensures var (db', reply) := UpsertRecord(db, session, studentId, status, viewer, now);
      reply.success ==> UpsertRecord(db', session, studentId, status, viewer, now) == (db', reply)
  {
    var (db', reply) := UpsertRecord(db, session, studentId, status, viewer, now);
    if reply.success {
      var n := CountFor(db.records, session, studentId);
      if n == 0 {
        var k := |db.records|;
        CountForAppend(db.records, db'.records[k], session, studentId);
        IndexForUnique(db'.records, k, session, studentId);
        assert db'.records[k := Marked(db'.records[k], status, viewer, now)] == db'.records;
      } else {
        var i := IndexFor(db.records, session, studentId);
        CountForUpdate(db.records, i, db'.records[i], session, studentId);
        IndexForUnique(db'.records, i, session, studentId);
        assert db'.records[i := Marked(db'.records[i], status, viewer, now)] == db'.records;
      }
    }
  }

  /**
    Repeating a request straight away, at the same time and by the same
    viewer, changes nothing more and gets the same reply, provided a new
    session starts out active (else a repeated quick mark opens a second one).
   */
  lemma MarkIdempotent(db: Db, req: MarkRequest, viewer: int, today: int, now: int)
    requires ValidDb(db) && db.newSessionStatus == ActiveStatus
    ensures var (db', reply) := Mark(db, req, viewer, today, now);
      Mark(db', req, viewer, today, now) == (db', reply)
  {
    var (db', reply) := Mark(db, req, viewer, today, now);
    if req.isPost && req.quickMark && Truthy(req.studentId) {
      var student := req.studentId.value;
      if reply.success {
        var classroom := db.users[student].classroom.value;
        var (db1, session) := SessionForToday(db, classroom, viewer, today);
        UpsertRecordStable(db1, session, student, req.status, viewer, now);
        SessionForTodayStable(db, db', classroom, viewer, today);
      }
    } else if req.isPost && Truthy(req.recordId) && reply.success {
      var i := IndexOfId(db.records, req.recordId.value).value;
      MarkPreservesValid(db, req, viewer, today, now);
      IndexOfIdUnique(db', i);
      assert db'.records[i := Marked(db'.records[i], req.status, viewer, now)] == db'.records;
    }
  }

  /** The database tables as the endpoint changes them in place. */
  class AttendanceStore {
    var users: map<int, User>
    var sessions: seq<Session>
    var records: seq<AttendanceRecord>
    var nextSessionId: int
    var nextRecordId: int
    const newSessionStatus: string

    function State(): Db
      reads this
    {
      Db(users, sessions, records, nextSessionId, nextRecordId, newSessionStatus)
    }

    ghost predicate Valid()
      reads this
    {
      ValidDb(State())
    }

    /** Empty session and record tables; keys start at 1. */
    constructor (users: map<int, User>, newSessionStatus: string)
      ensures Valid()
      ensures State() == Db(users, [], [], 1, 1, newSessionStatus)
    {
      this.users := users;
      this.newSessionStatus := newSessionStatus;
      sessions, records := [], [];
      nextSessionId, nextRecordId := 1, 1;
    }

    /** The endpoint: dispatches on the method and the request's fields. */
    method MarkAjax(req: MarkRequest, viewer: int, today: int, now: int) returns (reply: Reply)
      requires Valid()
      modifies this
      ensures Valid()
      ensures (State(), reply) == Mark(old(State()), req, viewer, today, now)
    {
      if !req.isPost {
        return Reply(false, InvalidMethod, None);
      }
      if req.quickMark && Truthy(req.studentId) {
        reply := QuickMarkStudent(req.studentId.value, req.status, viewer, today, now);
      } else if Truthy(req.recordId) {
        reply := UpdateRecordStatus(req.recordId.value, req.status, viewer, now);
      } else {
        reply := Reply(false, InvalidParameters, None);
      }
    }

    /**
      Quick marking: finds or creates today's session of the student's
      classroom, then creates or updates the student's record in it.
     */
    method QuickMarkStudent(studentId: int, status: string, viewer: int, today: int, now: int) returns (reply: Reply)
      requires Valid()
      modifies this
      ensures Valid()
      ensures (State(), reply) == QuickMark(old(State()), studentId, status, viewer, today, now)
    {
      if !(studentId in users && users[studentId].role == StudentRole) {
        return Failure(StudentDoesNotExist);
      }
      var student := users[studentId];
      if student.classroom.None? {
        return Failure(NoStudentProfile);
      }
      var classroom := student.classroom.value;
      var session: int;
      var found := FirstActiveSession(sessions, classroom, today);
      if found.Some? {
        session := sessions[found.value].id;
      } else {
        session := nextSessionId;
        sessions := sessions + [Session(session, classroom, viewer, today, newSessionStatus)];
        nextSessionId := nextSessionId + 1;
      }
      assert (State(), session) == SessionForToday(old(State()), classroom, viewer, today);
      reply := GetOrCreateAndSave(session, studentId, status, viewer, now);
    }

    /**
      get_or_create of the student's record in session (a new record takes
      the requested status), then the status of an existing record is set,
      the record is stamped with time and marker, and saved.
     */
    method GetOrCreateAndSave(session: int, studentId: int, status: string, viewer: int, now: int) returns (reply: Reply)
      requires Valid() && session < nextSessionId
      modifies this
      ensures Valid()
      ensures (State(), reply) == UpsertRecord(old(State()), session, studentId, status, viewer, now)
    {
      var matching := CountFor(records, session, studentId);
      if matching > 1 {
        return Failure(MultipleRecordsReturned);
      }
      var index: nat, created: bool;
      if matching == 0 {
        index, created := |records|, true;
        records := records + [AttendanceRecord(nextRecordId, session, studentId, status, None, None)];
        nextRecordId := nextRecordId + 1;
      } else {
        index, created := IndexFor(records, session, studentId), false;
      }
      var record := records[index];
      if !created {
        record := record.(status := status);
      }
      record := record.(markedAt := Some(now), markedBy := Some(viewer));
      records := records[index := record];
      reply := Reply(true, MarkedAs(status), Some(record.id));
      if created {
        assert records == old(records) + [record];
      } else {
        assert record == Marked(old(records)[index], status, viewer, now);
      }
    }

    /** Marking by key: sets the status, time and marker of that record and saves it. */
    method UpdateRecordStatus(recordId: int, status: string, viewer: int, now: int) returns (reply: Reply)
      requires Valid()
      modifies this
      ensures Valid()
      ensures (State(), reply) == UpdateRecord(old(State()), recordId, status, viewer, now)
    {
      var found := IndexOfId(records, recordId);
      if found.None? {
        return Failure(RecordDoesNotExist);
      }
      var record := records[found.value];
      record := record.(status := status);
      record := record.(markedAt := Some(now), markedBy := Some(viewer));
      records := records[found.value := record];
      reply := Reply(true, UpdatedTo(status), Some(record.id));
    }
  }
}
