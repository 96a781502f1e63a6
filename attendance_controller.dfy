/** The attendance handlers (server/controllers/attendanceController.js) as
    transitions of the database: the upsert keyed by class and calendar day, the
    per-attendee counter updates, and deletion. */
module AttendanceController {
  import opened Common
  import opened Records
  import opened Students
  import opened Ledger

  /** The body of `POST /api/attendances`; a field the client left out is None. */
  datatype RecordAttendanceRequest = RecordAttendanceRequest(
    classId: Option<Id>,
    date: Option<Instant>,
    sessionNumber: Option<int>,
    attendees: Option<seq<AttendeeInput>>)

  /** `!classId || !date || !attendees || attendees.length === 0`. */
  predicate MissingRequired(req: RecordAttendanceRequest)
  {
    req.classId.None? || req.date.None? || req.attendees.None? || |req.attendees.value| == 0
  }

  /** The query `{ classId, date: { $gte: day, $lt: day + 1 day } }` matches record `a`. */
  predicate OnDay(a: Attendance, classId: Id, day: Instant)
  {
    a.classId == classId && InDay(a.date, day)
  }

  /** `Attendance.findOne` with that query. */
  ghost function FindOnDay(records: map<Id, Attendance>, classId: Id, day: Instant): (r: Option<Id>)
    ensures r.Some? ==> r.value in records && OnDay(records[r.value], classId, day)
    ensures r.None? <==> forall id :: id in records ==> !OnDay(records[id], classId, day)
  {
    if exists id :: id in records && OnDay(records[id], classId, day) then
      Some(var id :| id in records && OnDay(records[id], classId, day); id)
    else None
  }

  /** Every record is stored under the start of its day, and the unique
      (classId, date) index holds. */
  ghost predicate DayKeyed(records: map<Id, Attendance>)
  {
    (forall id :: id in records ==> IsDayStart(records[id].date)) && UniqueClassDate(records)
  }

  /** With every record stored under its day start and the unique (classId, date)
      index, at most one record matches a class and a day. */
  lemma AtMostOneOnDay(records: map<Id, Attendance>, classId: Id, day: Instant, i: Id, j: Id)
    requires DayKeyed(records) && IsDayStart(day)
    requires i in records && OnDay(records[i], classId, day)
    requires j in records && OnDay(records[j], classId, day)
    ensures i == j
  {
    var a, b := records[i], records[j];
    DayStartUnique(a.date, a.date, day);
    DayStartUnique(b.date, b.date, day);
  }

  /** The attendee the record loop credits: one whose status in the request is the
      string "Present" (the status as sent, not as the schema stored it). */
  function CreditTarget(a: AttendeeInput): Option<Id>
  {
    if a.status == Some("Present") then a.studentId else None
  }

  function CreditTargets(inputs: seq<AttendeeInput>): (r: seq<Option<Id>>)
    ensures |r| == |inputs| && forall i :: 0 <= i < |inputs| ==> r[i] == CreditTarget(inputs[i])
  {
    seq(|inputs|, i requires 0 <= i < |inputs| => CreditTarget(inputs[i]))
  }

  /** The attendee the delete loop debits: one stored with status Present. */
  function DebitTarget(a: Attendee): Option<Id>
  {
    if a.status == Present then Some(a.studentId) else None
  }

  function DebitTargets(attendees: seq<Attendee>): (r: seq<Option<Id>>)
    ensures |r| == |attendees| && forall i :: 0 <= i < |attendees| ==> r[i] == DebitTarget(attendees[i])
  {
    seq(|attendees|, i requires 0 <= i < |attendees| => DebitTarget(attendees[i]))
  }

  /** `sessionNumber || attendanceRecord.sessionNumber`: a missing or zero number keeps
      the stored one. */
  function NextSessionNumber(given: Option<int>, current: Option<int>): (r: Option<int>)
    ensures given.Some? && given.value != 0 ==> r == given
    ensures given.None? || given.value == 0 ==> r == current
  {
    if given.Some? && given.value != 0 then given else current
  }

  /** The record `recordAttendance` looks up: the class's record on the calendar day
      holding the request's date. */
  ghost function Existing(db: Db, req: RecordAttendanceRequest): Option<Id>
    requires !MissingRequired(req)
  {
    FindOnDay(db.attendances, req.classId.value, StartOfDay(req.date.value))
  }

  /** The update branch: the found record takes the new attendee list and, unless the
      request's number is missing or zero, the new session number, then is saved. */
  function UpdateOnDay(db: Db, id: Id, sessionNumber: Option<int>, attendees: seq<Attendee>,
                       credited: map<Id, StudentDoc>, now: Instant): Step
    requires id in db.attendances
  {
    var rec := db.attendances[id];
    var updated := TouchAttendance(rec.(attendees := attendees,
                                        sessionNumber := NextSessionNumber(sessionNumber, rec.sessionNumber)), now);
    if !ValidAttendance(updated) then Step(db, BadRequest(ValidationFailed))
    else Step(db.(attendances := db.attendances[id := updated], students := credited), Updated(id))
  }

  /** The create branch: a new record under the fresh id, dated at the start of the day. */
  function CreateOnDay(db: Db, classId: Id, day: Instant, sessionNumber: Option<int>, attendees: seq<Attendee>,
                       credited: map<Id, StudentDoc>, now: Instant): Step
  {
    match NewAttendance(classId, day, sessionNumber, attendees, now)
    case None => Step(db, BadRequest(ValidationFailed))
    case Some(rec) =>
      Step(db.(attendances := db.attendances[db.nextId := rec], nextId := db.nextId + 1, students := credited),
           Created(db.nextId))
  }

  /** `recordAttendance`: the required-field check, the class lookup, then the upsert
      of the class's record for that calendar day, then one `updateAttendedSessions(id, 1)`
      per attendee sent with status "Present". */
  ghost function RecordAttendance(db: Db, req: RecordAttendanceRequest, now: Instant): Step
  {
    if MissingRequired(req) then Step(db, BadRequest(MissingFields))
    else if req.classId.value !in db.classes then Step(db, BadRequest(ClassNotFound))
    else
      var inputs := req.attendees.value;
      var credited := AdjustEach(db.students, CreditTargets(inputs), 1, now);
      match ToAttendees(inputs)
      case None => Step(db, BadRequest(ValidationFailed))
      case Some(attendees) =>
        match Existing(db, req)
        case Some(id) => UpdateOnDay(db, id, req.sessionNumber, attendees, credited, now)
        case None => CreateOnDay(db, req.classId.value, StartOfDay(req.date.value), req.sessionNumber, attendees, credited, now)
  }

  /** `deleteAttendance`. */
  function DeleteAttendance(db: Db, id: Id, now: Instant): Step
  {
    if id !in db.attendances then Step(db, NotFound)
    else
      Step(db.(students := AdjustEach(db.students, DebitTargets(db.attendances[id].attendees), -1, now),
               attendances := db.attendances - {id}),
           Deleted)
  }

  /** `getAttendanceByClassAndDate`: the record of the class on the calendar day
      holding `date`, or None for the 404 answer. */
  ghost function AttendanceOnDate(db: Db, classId: Id, date: Instant): Option<Id>
  {
    FindOnDay(db.attendances, classId, StartOfDay(date))
  }

  // ---------------------------------------------------------------------------
  // Properties
  // ---------------------------------------------------------------------------

  /** How many times the request lists student `id` with status "Present". */
  function PresentCount(inputs: seq<AttendeeInput>, id: Id): nat
  {
    Occurrences(CreditTargets(inputs), id)
  }

  /** The error outcomes of `recordAttendance` write nothing: a missing field answers
      400, an unknown class answers 400 "Class not found". */
  lemma RecordAttendanceErrors(db: Db, req: RecordAttendanceRequest, now: Instant)
    ensures MissingRequired(req) ==> RecordAttendance(db, req, now) == Step(db, BadRequest(MissingFields))
    ensures !MissingRequired(req) && req.classId.value !in db.classes ==>
              RecordAttendance(db, req, now) == Step(db, BadRequest(ClassNotFound))
    ensures var s := RecordAttendance(db, req, now);
              !s.response.Created? && !s.response.Updated? ==> s.db == db
  {
  }

  /** The update branch, when it succeeds, changes the found record only: same class
      and day, the new attendee list, the session number kept when none is given. */
  lemma UpdateOnDayEffect(db: Db, id: Id, sessionNumber: Option<int>, attendees: seq<Attendee>,
                          credited: map<Id, StudentDoc>, now: Instant)
    requires id in db.attendances
    requires UpdateOnDay(db, id, sessionNumber, attendees, credited, now).response.Updated?
    ensures var s := UpdateOnDay(db, id, sessionNumber, attendees, credited, now);
      var before, after := db.attendances[id], s.db.attendances[id];
      && s == Step(db.(attendances := db.attendances[id := after], students := credited), Updated(id))
      && after.classId == before.classId && after.date == before.date
      && after.attendees == attendees
      && after.sessionNumber == NextSessionNumber(sessionNumber, before.sessionNumber)
      && after.createdAt == before.createdAt && after.updatedAt == now
      && ValidAttendance(after)
  {
  }

  /** The create branch, when it succeeds, adds exactly one record under the fresh id. */
  lemma CreateOnDayEffect(db: Db, classId: Id, day: Instant, sessionNumber: Option<int>, attendees: seq<Attendee>,
                          credited: map<Id, StudentDoc>, now: Instant)
    requires CreateOnDay(db, classId, day, sessionNumber, attendees, credited, now).response.Created?
    ensures var s := CreateOnDay(db, classId, day, sessionNumber, attendees, credited, now);
      var rec := s.db.attendances[db.nextId];
      && s == Step(db.(attendances := db.attendances[db.nextId := rec], nextId := db.nextId + 1, students := credited),
                   Created(db.nextId))
      && rec.classId == classId && rec.date == day && rec.sessionNumber == sessionNumber
      && rec.attendees == attendees && ValidAttendance(rec)
  {
  }

  /** The upsert: when the class already has a record on that calendar day that record
      is updated in place and nothing is added; otherwise one record is created under
      the fresh id, dated at the start of the day. Either way the attendee list stored
      is the cast of the request's list, and the students are credited. */
  lemma RecordAttendanceUpsert(db: Db, req: RecordAttendanceRequest, now: Instant)
    requires var r := RecordAttendance(db, req, now).response; r.Created? || r.Updated?
    ensures !MissingRequired(req) && req.classId.value in db.classes && ToAttendees(req.attendees.value).Some?
    ensures var s := RecordAttendance(db, req, now);
      var existing := Existing(db, req);
      var id := s.response.id;
      && (existing.Some? ==>
            && s.response == Updated(existing.value) && s.db.nextId == db.nextId
            && s.db.attendances.Keys == db.attendances.Keys
            && s.db.attendances[id].classId == db.attendances[id].classId
            && s.db.attendances[id].date == db.attendances[id].date
            && s.db.attendances[id].sessionNumber == NextSessionNumber(req.sessionNumber, db.attendances[id].sessionNumber))
      && (existing.None? ==>
            && s.response == Created(db.nextId) && s.db.nextId == db.nextId + 1
            && s.db.attendances.Keys == db.attendances.Keys + {db.nextId}
            && s.db.attendances[id].classId == req.classId.value
            && s.db.attendances[id].date == StartOfDay(req.date.value)
            && s.db.attendances[id].sessionNumber == req.sessionNumber)
      && s.db.attendances == db.attendances[id := s.db.attendances[id]]
      && s.db.attendances[id].attendees == ToAttendees(req.attendees.value).value
      && ValidAttendance(s.db.attendances[id])
      && s.db.students == AdjustEach(db.students, CreditTargets(req.attendees.value), 1, now)
      && s.db.classes == db.classes && s.db.payments == db.payments
  {
    var inputs := req.attendees.value;
    var attendees := ToAttendees(inputs).value;
    var credited := AdjustEach(db.students, CreditTargets(inputs), 1, now);
    match Existing(db, req)
    case Some(id) =>
      UpdateOnDayEffect(db, id, req.sessionNumber, attendees, credited, now);
    case None =>
      CreateOnDayEffect(db, req.classId.value, StartOfDay(req.date.value), req.sessionNumber, attendees, credited, now);
  }

  /** On either path, every student listed "Present" in the request gains exactly one
      attended session per listing; a student listed only Absent or Late, or not listed,
      is left unchanged. */
  lemma RecordAttendanceCredits(db: Db, req: RecordAttendanceRequest, now: Instant, sid: Id)
    requires var r := RecordAttendance(db, req, now).response; r.Created? || r.Updated?
    requires sid in db.students
    ensures var s := RecordAttendance(db, req, now);
      && s.db.students.Keys == db.students.Keys
      && s.db.students[sid].totalAttendedSessions
           == db.students[sid].totalAttendedSessions + PresentCount(req.attendees.value, sid)
      && (PresentCount(req.attendees.value, sid) == 0 ==> s.db.students[sid] == db.students[sid])
      && s.db.students[sid].paidAmount == db.students[sid].paidAmount
  {
    AdjustEachCounts(db.students, CreditTargets(req.attendees.value), 1, now, sid);
  }

  /** A student the request never lists with status "Present" is not credited. */
  lemma {:induction false} NotPresentNotCounted(inputs: seq<AttendeeInput>, id: Id)
    requires forall i :: 0 <= i < |inputs| && inputs[i].studentId == Some(id) ==> inputs[i].status != Some("Present")
    ensures PresentCount(inputs, id) == 0
  {
    var t := CreditTargets(inputs);
    OccurrencesAbsent(t, id);
  }

  lemma {:induction false} OccurrencesAbsent(t: seq<Option<Id>>, id: Id)
    requires forall i :: 0 <= i < |t| ==> t[i] != Some(id)
    ensures Occurrences(t, id) == 0
    decreases |t|
  {
    if t != [] {
      OccurrencesAbsent(t[..|t| - 1], id);
    }
  }

  /** `deleteAttendance`: an unknown id answers 404 and writes nothing; otherwise each
      student loses one attended session per Present entry of the stored record, and
      the record is removed. */
  lemma DeleteAttendanceDebits(db: Db, id: Id, now: Instant, sid: Id)
    requires sid in db.students
    ensures id !in db.attendances ==> DeleteAttendance(db, id, now) == Step(db, NotFound)
    ensures id in db.attendances ==>
      var s := DeleteAttendance(db, id, now);
      && s.response == Deleted
      && s.db.attendances == db.attendances - {id}
      && s.db.students.Keys == db.students.Keys
      && s.db.students[sid].totalAttendedSessions
           == db.students[sid].totalAttendedSessions - Occurrences(DebitTargets(db.attendances[id].attendees), sid)
  {
    if id in db.attendances {
      AdjustEachCounts(db.students, DebitTargets(db.attendances[id].attendees), -1, now, sid);
    }
  }

  /** When every attendee in the request states a status, the delete loop debits
      exactly the attendees the record loop credited. */
  lemma ExplicitStatusTargets(inputs: seq<AttendeeInput>, stored: seq<Attendee>)
    requires ToAttendees(inputs) == Some(stored)
    requires forall i :: 0 <= i < |inputs| ==> inputs[i].status.Some?
    ensures DebitTargets(stored) == CreditTargets(inputs)
  {
    forall i | 0 <= i < |inputs|
      ensures DebitTargets(stored)[i] == CreditTargets(inputs)[i]
    {
      assert ToAttendee(inputs[i]) == Some(stored[i]);
    }
  }

  /** Round trip: creating a new record for a class and day, where every attendee
      states a status, and then deleting it restores every student's attended count
      and the attendance collection. */
  lemma CreateThenDeleteAttendance(db: Db, req: RecordAttendanceRequest, now1: Instant, now2: Instant, sid: Id)
    requires IdsBelow(db)
    requires RecordAttendance(db, req, now1).response.Created?
    requires forall i :: 0 <= i < |req.attendees.value| ==> req.attendees.value[i].status.Some?
    requires sid in db.students
    ensures var s1 := RecordAttendance(db, req, now1);
      var s2 := DeleteAttendance(s1.db, s1.response.id, now2);
      && s2.response == Deleted
      && s2.db.attendances == db.attendances
      && s2.db.students.Keys == db.students.Keys
      && s2.db.students[sid].totalAttendedSessions == db.students[sid].totalAttendedSessions
  {
    var s1 := RecordAttendance(db, req, now1);
    var inputs := req.attendees.value;
    CreatedRecordRemoved(db, req, now1, now2);
    RecordAttendanceUpsert(db, req, now1);
    var rec := s1.db.attendances[db.nextId];
    RecordAttendanceCredits(db, req, now1, sid);
    assert rec.attendees == ToAttendees(inputs).value;
    ExplicitStatusTargets(inputs, rec.attendees);
    DeleteAttendanceDebits(s1.db, db.nextId, now2, sid);
  }

  /** Deleting the record a creating request inserted restores the attendance collection. */
  lemma CreatedRecordRemoved(db: Db, req: RecordAttendanceRequest, now1: Instant, now2: Instant)
    requires IdsBelow(db)
    requires RecordAttendance(db, req, now1).response.Created?
    ensures var s1 := RecordAttendance(db, req, now1);
      && s1.response.id == db.nextId
      && DeleteAttendance(s1.db, db.nextId, now2).response == Deleted
      && DeleteAttendance(s1.db, db.nextId, now2).db.attendances == db.attendances
  {
    var s1 := RecordAttendance(db, req, now1);
    RecordAttendanceUpsert(db, req, now1);
    var rec := s1.db.attendances[db.nextId];
    assert s1.db.attendances == db.attendances[db.nextId := rec];
    assert db.nextId !in db.attendances;
    RemoveInserted(db.attendances, db.nextId, rec);
  }

  lemma RemoveInserted(m: map<Id, Attendance>, k: Id, v: Attendance)
    requires k !in m
    ensures m[k := v] - {k} == m
  {
  }

  /** An attendee sent without a status is stored as Present (the schema default) but
      is not credited, since the record loop reads the status as sent; deleting the
      record then debits it, so create followed by delete leaves that student one
      session short. */
  lemma UnstatedStatusLosesSession(db: Db, req: RecordAttendanceRequest, now1: Instant, now2: Instant, sid: Id)
    requires IdsBelow(db)
    requires req.attendees == Some([AttendeeInput(Some(sid), None, None)])
    requires RecordAttendance(db, req, now1).response.Created?
    requires sid in db.students
    ensures var s1 := RecordAttendance(db, req, now1);
      var s2 := DeleteAttendance(s1.db, s1.response.id, now2);
      && s1.db.attendances[s1.response.id].attendees == [Attendee(sid, Present, None)]
      && s1.db.students[sid].totalAttendedSessions == db.students[sid].totalAttendedSessions
      && s2.db.students[sid].totalAttendedSessions == db.students[sid].totalAttendedSessions - 1
  {
    var s1 := RecordAttendance(db, req, now1);
    var inputs := req.attendees.value;
    RecordAttendanceUpsert(db, req, now1);
    RecordAttendanceCredits(db, req, now1, sid);
    var skipped: seq<Option<Id>> := [None];
    assert CreditTargets(inputs) == skipped;
    assert Occurrences(skipped, sid) == 0 by {
      assert skipped[..0] == [];
    }
    var stored := s1.db.attendances[db.nextId].attendees;
    assert stored == [Attendee(sid, Present, None)];
    var debited: seq<Option<Id>> := [Some(sid)];
    assert DebitTargets(stored) == debited;
    assert Occurrences(debited, sid) == 1 by {
      assert debited[..0] == [];
    }
    DeleteAttendanceDebits(s1.db, db.nextId, now2, sid);
  }

  /** Replacing a record by one of the same class and day, valid, keeps the invariant. */
  lemma ReplaceRecordKeepsInvariant(db: Db, id: Id, updated: Attendance, students: map<Id, StudentDoc>)
    requires Invariant(db) && id in db.attendances
    requires updated.classId == db.attendances[id].classId && updated.date == db.attendances[id].date
    requires ValidAttendance(updated) && SameProfiles(db.students, students)
    ensures Invariant(db.(attendances := db.attendances[id := updated], students := students))
  {
    SameProfilesKeepPhones(db.students, students);
  }

  /** Inserting a valid record stored under a day start, whose class has no record on
      that day, under the fresh id keeps the invariant. */
  lemma InsertRecordKeepsInvariant(db: Db, rec: Attendance, students: map<Id, StudentDoc>)
    requires Invariant(db) && ValidAttendance(rec) && IsDayStart(rec.date)
    requires forall i :: i in db.attendances ==> !OnDay(db.attendances[i], rec.classId, rec.date)
    requires SameProfiles(db.students, students)
    ensures Invariant(db.(attendances := db.attendances[db.nextId := rec], nextId := db.nextId + 1, students := students))
  {
    SameProfilesKeepPhones(db.students, students);
    forall i | i in db.attendances
      ensures db.attendances[i].classId != rec.classId || db.attendances[i].date != rec.date
    {
      assert !OnDay(db.attendances[i], rec.classId, rec.date);
    }
  }

  /** Each attendance handler keeps the collections' invariant; in particular a class
      never has two records on one calendar day. */
  lemma RecordAttendanceKeepsInvariant(db: Db, req: RecordAttendanceRequest, now: Instant)
    requires Invariant(db)
    ensures Invariant(RecordAttendance(db, req, now).db)
  {
    var s := RecordAttendance(db, req, now);
    if s.response.Created? || s.response.Updated? {
      RecordAttendanceUpsert(db, req, now);
      var credited := AdjustEach(db.students, CreditTargets(req.attendees.value), 1, now);
      assert SameProfiles(db.students, credited);
      var day := StartOfDay(req.date.value);
      var id := s.response.id;
      if s.response.Updated? {
        ReplaceRecordKeepsInvariant(db, id, s.db.attendances[id], credited);
        assert s.db == db.(attendances := db.attendances[id := s.db.attendances[id]], students := credited);
      } else {
        InsertRecordKeepsInvariant(db, s.db.attendances[id], credited);
        assert s.db == db.(attendances := db.attendances[db.nextId := s.db.attendances[id]], nextId := db.nextId + 1, students := credited);
      }
    }
  }

  lemma DeleteAttendanceKeepsInvariant(db: Db, id: Id, now: Instant)
    requires Invariant(db)
    ensures Invariant(DeleteAttendance(db, id, now).db)
  {
    var s := DeleteAttendance(db, id, now);
    if id in db.attendances {
      assert SameProfiles(db.students, s.db.students);
      SameProfilesKeepPhones(db.students, s.db.students);
    }
  }

  /** The attendance handlers save every student they change, so the debt invariant of
      the Student pre-save hook is kept. */
  lemma AttendanceHandlersKeepDebtConsistent(db: Db, req: RecordAttendanceRequest, id: Id, now: Instant)
    requires AllDebtConsistent(db.students)
    ensures AllDebtConsistent(RecordAttendance(db, req, now).db.students)
    ensures AllDebtConsistent(DeleteAttendance(db, id, now).db.students)
  {
    RecordAttendanceErrors(db, req, now);
    var s := RecordAttendance(db, req, now);
    if s.response.Created? || s.response.Updated? {
      RecordAttendanceUpsert(db, req, now);
      AdjustEachKeepsDebtConsistent(db.students, CreditTargets(req.attendees.value), 1, now);
    }
    if id in db.attendances {
      AdjustEachKeepsDebtConsistent(db.students, DebitTargets(db.attendances[id].attendees), -1, now);
    }
  }

  /** After a successful `recordAttendance`, the lookup of `getAttendanceByClassAndDate`
      finds that record from any instant of the same calendar day. */
  lemma RecordedIsFoundOnDay(db: Db, req: RecordAttendanceRequest, now: Instant, t: Instant)
    requires Invariant(db)
    requires var r := RecordAttendance(db, req, now).response; r.Created? || r.Updated?
    requires StartOfDay(t) == StartOfDay(req.date.value)
    ensures var s := RecordAttendance(db, req, now);
      AttendanceOnDate(s.db, req.classId.value, t) == Some(s.response.id)
  {
    var s := RecordAttendance(db, req, now);
    var id := s.response.id;
    var day := StartOfDay(req.date.value);
    RecordAttendanceUpsert(db, req, now);
    RecordAttendanceKeepsInvariant(db, req, now);
    assert id in s.db.attendances;
    if s.response.Updated? {
      assert OnDay(db.attendances[id], req.classId.value, day);
    }
    assert OnDay(s.db.attendances[id], req.classId.value, day);
    var found := AttendanceOnDate(s.db, req.classId.value, t);
    assert found.Some?;
    AtMostOneOnDay(s.db.attendances, req.classId.value, day, found.value, id);
  }

  /** A request that succeeded once carries a session number that is either missing,
      zero, or at least 1. */
  lemma SucceededSessionNumber(db: Db, req: RecordAttendanceRequest, now: Instant)
    requires var r := RecordAttendance(db, req, now).response; r.Created? || r.Updated?
    ensures req.sessionNumber.Some? && req.sessionNumber.value != 0 ==> req.sessionNumber.value >= 1
  {
    RecordAttendanceUpsert(db, req, now);
  }

  /** Re-saving a request that succeeded takes the update branch on the record the
      first save wrote. */
  lemma ResubmitUpdates(db: Db, req: RecordAttendanceRequest, now1: Instant, now2: Instant)
    requires Invariant(db)
    requires var r := RecordAttendance(db, req, now1).response; r.Created? || r.Updated?
    ensures var s1 := RecordAttendance(db, req, now1);
      RecordAttendance(s1.db, req, now2).response == Updated(s1.response.id)
  {
    var s1 := RecordAttendance(db, req, now1);
    var id := s1.response.id;
    RecordAttendanceUpsert(db, req, now1);
    RecordedIsFoundOnDay(db, req, now1, req.date.value);
    SucceededSessionNumber(db, req, now1);
    assert Existing(s1.db, req) == Some(id);
    var inputs := req.attendees.value;
    var credited := AdjustEach(s1.db.students, CreditTargets(inputs), 1, now2);
    var u := UpdateOnDay(s1.db, id, req.sessionNumber, ToAttendees(inputs).value, credited, now2);
    assert u.response == Updated(id);
  }

  /** Re-saving the same request for the same class and day updates the one record
      again and credits every Present attendee a second time: the counter is not
      idempotent under re-submission. */
  lemma ResubmitDoubleCounts(db: Db, req: RecordAttendanceRequest, now1: Instant, now2: Instant, sid: Id)
    requires Invariant(db)
    requires var r := RecordAttendance(db, req, now1).response; r.Created? || r.Updated?
    requires sid in db.students
    ensures var s1 := RecordAttendance(db, req, now1);
      var s2 := RecordAttendance(s1.db, req, now2);
      && s2.response == Updated(s1.response.id)
      && s2.db.attendances.Keys == s1.db.attendances.Keys
      && s2.db.students.Keys == db.students.Keys
      && req.attendees.Some?
      && s2.db.students[sid].totalAttendedSessions
           == db.students[sid].totalAttendedSessions + 2 * PresentCount(req.attendees.value, sid)
  {
    var s1 := RecordAttendance(db, req, now1);
    ResubmitUpdates(db, req, now1, now2);
    RecordAttendanceUpsert(s1.db, req, now2);
    RecordAttendanceCredits(db, req, now1, sid);
    RecordAttendanceCredits(s1.db, req, now2, sid);
  }
}
