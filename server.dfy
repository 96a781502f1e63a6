/** The store and the handlers as the server runs them: a database of stored
    documents, and handler methods that load a document into a `Student` object,
    assign its fields, save it back and write the other collections step by step. Each handler is proved to make exactly the transition its
    specification function in PaymentController or AttendanceController describes. */
module Server {
  import opened Common
  import opened Records
  import opened Students
  import opened Ledger
  import PC = PaymentController
  import AC = AttendanceController

  class Database {
    /** The stored student documents; a handler loads one into a `Student` object,
        changes it and saves it back. */
    var students: map<Id, StudentDoc>
    var classes: map<Id, ClassDoc>
    var payments: map<Id, Payment>
    var attendances: map<Id, Attendance>
    var nextId: nat

    /** The whole database as a value. */
    function Abstract(): Db
      reads this
    {
      Db(students, classes, payments, attendances, nextId)
    }

    ghost predicate Valid()
      reads this
    {
      Invariant(Abstract())
    }

    /** An empty database. */
    constructor ()
      ensures Valid()
      ensures Abstract() == Db(map[], map[], map[], map[], 0)
    {
      students, classes, payments, attendances, nextId := map[], map[], map[], map[], 0;
    }

    // -------------------------------------------------------------------------
    // The statics of Student.js: findById, change the loaded document, save.
    // -------------------------------------------------------------------------

    /** `Student.updateAttendedSessions(id, sessionsToAdd)`. */
    method UpdateAttendedSessions(id: Id, sessionsToAdd: int, now: Instant)
      modifies this`students
      ensures students == AttendedSessionsUpdated(old(students), id, sessionsToAdd, now)
    {
      if id in students {
        var student := new Student.Load(students[id]);
        student.AddAttendedSessions(sessionsToAdd, now);
        students := students[id := student.View()];
      }
    }

    /** `Student.updatePaymentStatus(id, amountPaid)`. */
    method UpdatePaymentStatus(id: Id, amountPaid: int, now: Instant)
      modifies this`students
      ensures students == PaymentStatusUpdated(old(students), id, amountPaid, now)
    {
      if id in students {
        var student := new Student.Load(students[id]);
        student.AddPayment(amountPaid, now);
        students := students[id := student.View()];
      }
    }

    /** `Student.setPaymentReminder(id, classTotalSessions)`. */
    method SetPaymentReminder(id: Id, classTotalSessions: int, now: Instant)
      modifies this`students
      ensures students == PaymentReminderSet(old(students), id, classTotalSessions, now)
    {
      if id in students {
        var student := new Student.Load(students[id]);
        student.ApplyPaymentReminder(classTotalSessions, now);
        students := students[id := student.View()];
      }
    }

    // -------------------------------------------------------------------------
    // paymentController.js
    // -------------------------------------------------------------------------

    /** The student edit of `updatePayment`: `paidAmount -= oldAmount; paidAmount +=
        newAmount; lastPaymentDate = now; save()`, when the student exists. */
    method ReplacePaidAmount(studentId: Id, oldAmount: int, newAmount: int, now: Instant)
      modifies this`students
      ensures students == PaymentStatusUpdated(old(students), studentId, newAmount - oldAmount, now)
    {
      if studentId in students {
        var student := new Student.Load(students[studentId]);
        student.paidAmount := student.paidAmount - oldAmount;
        student.paidAmount := student.paidAmount + newAmount;
        student.lastPaymentDate := Some(now);
        student.Save(now);
        assert student.View() == WithPayment(old(students)[studentId], newAmount - oldAmount, now);
        students := students[studentId := student.View()];
      }
    }

    /** The student edit of `deletePayment`: `paidAmount -= amount; lastPaymentDate =
        now; save()`, when the student exists. */
    method RevertPaidAmount(studentId: Id, amount: int, now: Instant)
      modifies this`students
      ensures students == PaymentStatusUpdated(old(students), studentId, -amount, now)
    {
      if studentId in students {
        var student := new Student.Load(students[studentId]);
        student.paidAmount := student.paidAmount - amount;
        student.lastPaymentDate := Some(now);
        student.Save(now);
        assert student.View() == WithPayment(old(students)[studentId], -amount, now);
        students := students[studentId := student.View()];
      }
    }

    /** The student side of `recordPayment`: `Student.updatePaymentStatus`, then, when
        the first enrolled class (as loaded before the update) exists and has a non-zero
        `totalSessions`, `Student.setPaymentReminder` with it. */
    method ApplyPayment(studentId: Id, amount: int, now: Instant)
      requires studentId in students
      modifies this`students
      ensures students == PC.PaymentApplied(old(students), classes, studentId, amount, now)
    {
      var enrolled := students[studentId].classes;
      UpdatePaymentStatus(studentId, amount, now);
      if |enrolled| > 0 && enrolled[0].classId.Some? {
        var mainClassId := enrolled[0].classId.value;
        if mainClassId in classes && classes[mainClassId].totalSessions != 0 {
          SetPaymentReminder(studentId, classes[mainClassId].totalSessions, now);
        }
      }
    }

    /** `recordPayment`. */
    method RecordPayment(req: PC.RecordPaymentRequest, now: Instant) returns (resp: Response)
      modifies this
      ensures Step(Abstract(), resp) == PC.RecordPayment(old(Abstract()), req, now)
    {
      if PC.MissingRequired(req) {
        return BadRequest(MissingFields);
      }
      var studentId, amount := req.studentId.value, req.amount.value;
      if studentId !in students {
        return NotFound;
      }
      var newPayment := NewPayment(studentId, amount, req.paymentType, req.payMethod, req.recordedBy, req.note, now);
      if newPayment.None? {
        return BadRequest(ValidationFailed);
      }
      payments := payments[nextId := newPayment.value];
      resp := Created(nextId);
      nextId := nextId + 1;
      ApplyPayment(studentId, amount, now);
    }

    /** `updatePayment`: the student's `paidAmount` loses the old amount and gains the
        new one, only when they differ. */
    method UpdatePayment(id: Id, req: PC.UpdatePaymentRequest, now: Instant) returns (resp: Response)
      modifies this
      ensures Step(Abstract(), resp) == PC.UpdatePayment(old(Abstract()), id, req, now)
    {
      if id !in payments {
        return NotFound;
      }
      var oldPayment := payments[id];
      var amountDifference := req.amount - oldPayment.amount;
      var updatedPayment := PC.Revised(oldPayment, req, now);
      if updatedPayment.None? {
        return BadRequest(ValidationFailed);
      }
      payments := payments[id := updatedPayment.value];
      if amountDifference != 0 {
        ReplacePaidAmount(updatedPayment.value.studentId, oldPayment.amount, req.amount, now);
      }
      resp := Updated(id);
    }

    /** `deletePayment`: the student's `paidAmount` loses the amount, then the record
        is removed (also when the student no longer exists). */
    method DeletePayment(id: Id, now: Instant) returns (resp: Response)
      modifies this
      ensures Step(Abstract(), resp) == PC.DeletePayment(old(Abstract()), id, now)
    {
      if id !in payments {
        return NotFound;
      }
      var paymentRecord := payments[id];
      RevertPaidAmount(paymentRecord.studentId, paymentRecord.amount, now);
      payments := payments - {id};
      resp := Deleted;
    }

    // -------------------------------------------------------------------------
    // attendanceController.js
    // -------------------------------------------------------------------------

    /** `Attendance.findOne({ classId, date: { $gte: day, $lt: next day } })`: scans the
        records; the unique index makes the match it finds the only one. */
    method FindOnDay(classId: Id, day: Instant) returns (found: Option<Id>)
      requires AC.DayKeyed(attendances) && IsDayStart(day)
      ensures found == AC.FindOnDay(attendances, classId, day)
    {
      var unvisited := attendances.Keys;
      while unvisited != {}
        invariant unvisited <= attendances.Keys
        invariant forall id :: id in attendances && id !in unvisited ==> !AC.OnDay(attendances[id], classId, day)
        decreases |unvisited|
      {
        var id :| id in unvisited;
        if AC.OnDay(attendances[id], classId, day) {
          var expected := AC.FindOnDay(attendances, classId, day);
          AC.AtMostOneOnDay(attendances, classId, day, id, expected.value);
          return Some(id);
        }
        unvisited := unvisited - {id};
      }
      return None;
    }

    /** `getAttendanceByClassAndDate`: the class's record on the calendar day holding
        `date`, or None for the 404 answer. */
    method GetAttendanceByClassAndDate(classId: Id, date: Instant) returns (r: Option<Attendance>)
      requires AC.DayKeyed(attendances)
      ensures r.Some? <==> AC.AttendanceOnDate(Abstract(), classId, date).Some?
      ensures r.Some? ==> r.value.classId == classId && StartOfDay(r.value.date) == StartOfDay(date)
      ensures r.Some? ==> r.value == attendances[AC.AttendanceOnDate(Abstract(), classId, date).value]
    {
      var found := FindOnDay(classId, StartOfDay(date));
      if found.None? {
        return None;
      }
      r := Some(attendances[found.value]);
      SameDayQuery(r.value.date, date);
    }

    /** The loop `for (const attendee of attendees) if (attendee.status === 'Present')
        updateAttendedSessions(attendee.studentId, 1)` over the request's list. */
    method CreditPresent(attendees: seq<AttendeeInput>, now: Instant)
      modifies this`students
      ensures students == AdjustEach(old(students), AC.CreditTargets(attendees), 1, now)
    {
      ghost var docs0 := students;
      var i := 0;
      while i < |attendees|
        invariant 0 <= i <= |attendees|
        invariant students == AdjustEach(docs0, AC.CreditTargets(attendees[..i]), 1, now)
      {
        var attendee := attendees[i];
        CreditStep(docs0, attendees, i, now, students);
        if attendee.status == Some("Present") && attendee.studentId.Some? {
          UpdateAttendedSessions(attendee.studentId.value, 1, now);
        }
        i := i + 1;
      }
      assert attendees[..i] == attendees;
    }

    /** The same loop with -1 over a stored record's attendees. */
    method DebitPresent(attendees: seq<Attendee>, now: Instant)
      modifies this`students
      ensures students == AdjustEach(old(students), AC.DebitTargets(attendees), -1, now)
    {
      ghost var docs0 := students;
      var i := 0;
      while i < |attendees|
        invariant 0 <= i <= |attendees|
        invariant students == AdjustEach(docs0, AC.DebitTargets(attendees[..i]), -1, now)
      {
        var attendee := attendees[i];
        DebitStep(docs0, attendees, i, now, students);
        if attendee.status == Present {
          UpdateAttendedSessions(attendee.studentId, -1, now);
        }
        i := i + 1;
      }
      assert attendees[..i] == attendees;
    }

    /** `recordAttendance`: the checks, the day-keyed upsert, then the credit loop. */
    method RecordAttendance(req: AC.RecordAttendanceRequest, now: Instant) returns (resp: Response)
      requires AC.DayKeyed(attendances)
      modifies this
      ensures Step(Abstract(), resp) == AC.RecordAttendance(old(Abstract()), req, now)
    {
      if AC.MissingRequired(req) {
        return BadRequest(MissingFields);
      }
      var classId, attendees := req.classId.value, req.attendees.value;
      if classId !in classes {
        return BadRequest(ClassNotFound);
      }
      var recordDate := StartOfDay(req.date.value);
      var cast := ToAttendees(attendees);
      if cast.None? {
        return BadRequest(ValidationFailed);
      }
      var existing := FindOnDay(classId, recordDate);
      assert existing == AC.Existing(Abstract(), req);
      if existing.Some? {
        var id := existing.value;
        var rec := attendances[id];
        var updated := TouchAttendance(rec.(attendees := cast.value,
                                            sessionNumber := AC.NextSessionNumber(req.sessionNumber, rec.sessionNumber)), now);
        if !ValidAttendance(updated) {
          return BadRequest(ValidationFailed);
        }
        attendances := attendances[id := updated];
        resp := Updated(id);
      } else {
        var created := NewAttendance(classId, recordDate, req.sessionNumber, cast.value, now);
        if created.None? {
          return BadRequest(ValidationFailed);
        }
        attendances := attendances[nextId := created.value];
        resp := Created(nextId);
        nextId := nextId + 1;
      }
      CreditPresent(attendees, now);
    }

    /** `deleteAttendance`: the debit loop over the stored attendees, then removal. */
    method DeleteAttendance(id: Id, now: Instant) returns (resp: Response)
      modifies this
      ensures Step(Abstract(), resp) == AC.DeleteAttendance(old(Abstract()), id, now)
    {
      if id !in attendances {
        return NotFound;
      }
      DebitPresent(attendances[id].attendees, now);
      attendances := attendances - {id};
      resp := Deleted;
    }

    // -------------------------------------------------------------------------
    // The routers: every write route keeps the database's invariant.
    // -------------------------------------------------------------------------

    /** A write request, handed to its controller. */
    method Handle(route: Route, now: Instant) returns (resp: Response)
      requires Valid()
      modifies this
      ensures Valid()
      ensures Step(Abstract(), resp) == Dispatch(old(Abstract()), route, now)
    {
      ghost var db0 := Abstract();
      match route {
        case PostPayment(req) => resp := RecordPayment(req, now);
        case PutPayment(id, req) => resp := UpdatePayment(id, req, now);
        case DeletePaymentRoute(id) => resp := DeletePayment(id, now);
        case PostAttendance(req) => resp := RecordAttendance(req, now);
        case DeleteAttendanceRoute(id) => resp := DeleteAttendance(id, now);
      }
      DispatchKeepsInvariant(db0, route, now);
    }
  }

  /** The write routes of the payment and attendance routers. */
  datatype Route =
    | PostPayment(recordReq: PC.RecordPaymentRequest)       // POST   /
    | PutPayment(paymentId: Id, updateReq: PC.UpdatePaymentRequest)  // PUT    /:id
    | DeletePaymentRoute(paymentId: Id)                    // DELETE /:id
    | PostAttendance(attendanceReq: AC.RecordAttendanceRequest)  // POST   /
    | DeleteAttendanceRoute(attendanceId: Id)              // DELETE /:id

  /** The transition a route's controller makes. */
  ghost function Dispatch(db: Db, route: Route, now: Instant): Step
  {
    match route
    case PostPayment(req) => PC.RecordPayment(db, req, now)
    case PutPayment(id, req) => PC.UpdatePayment(db, id, req, now)
    case DeletePaymentRoute(id) => PC.DeletePayment(db, id, now)
    case PostAttendance(req) => AC.RecordAttendance(db, req, now)
    case DeleteAttendanceRoute(id) => AC.DeleteAttendance(db, id, now)
  }

  /** Every write route keeps the collections' invariant. */
  lemma DispatchKeepsInvariant(db: Db, route: Route, now: Instant)
    requires Invariant(db)
    ensures Invariant(Dispatch(db, route, now).db)
  {
    match route
    case PostPayment(req) => PC.RecordPaymentKeepsInvariant(db, req, now);
    case PutPayment(id, req) => PC.UpdatePaymentKeepsInvariant(db, id, req, now);
    case DeletePaymentRoute(id) => PC.DeletePaymentKeepsInvariant(db, id, now);
    case PostAttendance(req) => AC.RecordAttendanceKeepsInvariant(db, req, now);
    case DeleteAttendanceRoute(id) => AC.DeleteAttendanceKeepsInvariant(db, id, now);
  }

  /** One iteration of the credit loop: the attendee at `i` is credited exactly when
      the request sent status "Present" with a student id. */
  lemma CreditStep(docs0: map<Id, StudentDoc>, attendees: seq<AttendeeInput>, i: nat, now: Instant, before: map<Id, StudentDoc>)
    requires i < |attendees|
    requires before == AdjustEach(docs0, AC.CreditTargets(attendees[..i]), 1, now)
    ensures AdjustEach(docs0, AC.CreditTargets(attendees[..i + 1]), 1, now)
            == if attendees[i].status == Some("Present") && attendees[i].studentId.Some?
               then AttendedSessionsUpdated(before, attendees[i].studentId.value, 1, now)
               else before
  {
    assert AC.CreditTargets(attendees[..i + 1]) == AC.CreditTargets(attendees[..i]) + [AC.CreditTarget(attendees[i])];
    AdjustEachSnoc(docs0, AC.CreditTargets(attendees[..i]), AC.CreditTarget(attendees[i]), 1, now);
  }

  /** One iteration of the debit loop: the attendee at `i` is debited exactly when
      stored with status Present. */
  lemma DebitStep(docs0: map<Id, StudentDoc>, attendees: seq<Attendee>, i: nat, now: Instant, before: map<Id, StudentDoc>)
    requires i < |attendees|
    requires before == AdjustEach(docs0, AC.DebitTargets(attendees[..i]), -1, now)
    ensures AdjustEach(docs0, AC.DebitTargets(attendees[..i + 1]), -1, now)
            == if attendees[i].status == Present
               then AttendedSessionsUpdated(before, attendees[i].studentId, -1, now)
               else before
  {
    assert AC.DebitTargets(attendees[..i + 1]) == AC.DebitTargets(attendees[..i]) + [AC.DebitTarget(attendees[i])];
    AdjustEachSnoc(docs0, AC.DebitTargets(attendees[..i]), AC.DebitTarget(attendees[i]), -1, now);
  }
}
