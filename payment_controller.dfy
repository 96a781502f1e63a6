/** The payment handlers (server/controllers/paymentController.js) as transitions of
    the database: what each writes, what it answers, and the exact delta each one
    applies to the student's `paidAmount`. */
module PaymentController {
  import opened Common
  import opened Records
  import opened Students
  import opened Ledger

  /** The body of `POST /api/payments`; a field the client left out is None. */
  datatype RecordPaymentRequest = RecordPaymentRequest(
    studentId: Option<Id>,
    amount: Option<int>,
    paymentType: Option<string>,
    payMethod: Option<string>,
    recordedBy: Option<string>,
    note: Option<string>)

  /** `!studentId || !amount || !paymentType`: a missing field, an amount of 0 or an
      empty payment type. */
  predicate MissingRequired(req: RecordPaymentRequest)
  {
    req.studentId.None? || req.amount.None? || req.amount.value == 0 ||
    req.paymentType.None? || req.paymentType.value == ""
  }

  /** The `totalSessions` the reminder uses: that of the class of the student's first
      enrollment, when that class exists and its `totalSessions` is not 0; otherwise
      the reminder is not re-evaluated. */
  function ReminderSessions(enrolled: seq<Enrollment>, classes: map<Id, ClassDoc>): (r: Option<int>)
    ensures r.Some? <==> |enrolled| > 0 && enrolled[0].classId.Some? && enrolled[0].classId.value in classes &&
                         classes[enrolled[0].classId.value].totalSessions != 0
    ensures r.Some? ==> r.value != 0 && r.value == classes[enrolled[0].classId.value].totalSessions
  {
    if |enrolled| == 0 || enrolled[0].classId.None? || enrolled[0].classId.value !in classes then None
    else
      var total := classes[enrolled[0].classId.value].totalSessions;
      if total != 0 then Some(total) else None
  }

  /** The student side of a recorded payment: `Student.updatePaymentStatus`, then
      `Student.setPaymentReminder` with the first enrolled class's `totalSessions` when
      that applies. */
  function PaymentApplied(students: map<Id, StudentDoc>, classes: map<Id, ClassDoc>, sid: Id, amount: int, now: Instant)
    : map<Id, StudentDoc>
    requires sid in students
  {
    var paid := PaymentStatusUpdated(students, sid, amount, now);
    match ReminderSessions(students[sid].classes, classes)
    case None => paid
    case Some(total) => PaymentReminderSet(paid, sid, total, now)
  }

  /** `recordPayment`. */
  function RecordPayment(db: Db, req: RecordPaymentRequest, now: Instant): Step
  {
    if MissingRequired(req) then Step(db, BadRequest(MissingFields))
    else if req.studentId.value !in db.students then Step(db, NotFound)
    else
      var sid, amount := req.studentId.value, req.amount.value;
      match NewPayment(sid, amount, req.paymentType, req.payMethod, req.recordedBy, req.note, now)
      case None => Step(db, BadRequest(ValidationFailed))
      case Some(p) =>
        Step(db.(students := PaymentApplied(db.students, db.classes, sid, amount, now), payments := db.payments[db.nextId := p], nextId := db.nextId + 1),
             Created(db.nextId))
  }

  /** The body of `PUT /api/payments/:id`. The amount is required here (the handler
      computes `amount - oldPayment.amount`); another field left out keeps its value. */
  datatype UpdatePaymentRequest = UpdatePaymentRequest(
    amount: int,
    paymentType: Option<string>,
    payMethod: Option<string>,
    recordedBy: Option<string>,
    note: Option<string>)

  /** `findByIdAndUpdate(..., { runValidators: true })`: the update validators run on
      the fields the request sets, the schema's `trim` setters run on `recordedBy` and
      `note`, and `updatedAt` is stamped. */
  function Revised(p: Payment, req: UpdatePaymentRequest, now: Instant): (r: Option<Payment>)
    ensures r.Some? <==> req.amount >= 0 && (req.paymentType.None? || ParsePaymentType(req.paymentType.value).Some?) &&
                         MethodAccepted(req.payMethod)
    ensures r.Some? ==> ValidPayment(r.value) && r.value.amount == req.amount && r.value.updatedAt == now
    ensures r.Some? ==> r.value.studentId == p.studentId && r.value.paymentDate == p.paymentDate && r.value.createdAt == p.createdAt
    ensures r.Some? && req.paymentType.None? ==> r.value.paymentType == p.paymentType
    ensures r.Some? && req.payMethod.None? ==> r.value.payMethod == p.payMethod
    ensures r.Some? && req.paymentType.Some? ==> PaymentTypeName(r.value.paymentType) == req.paymentType.value
    ensures r.Some? && req.payMethod.Some? ==> MethodName(r.value.payMethod) == req.payMethod.value
    ensures r.Some? ==> r.value.recordedBy == (if req.recordedBy.Some? then TrimOpt(req.recordedBy) else p.recordedBy)
    ensures r.Some? ==> r.value.note == (if req.note.Some? then TrimOpt(req.note) else p.note)
  {
    var pt := if req.paymentType.None? then Some(p.paymentType) else ParsePaymentType(req.paymentType.value);
    var m := if req.payMethod.None? then Some(p.payMethod) else ParsePaymentMethod(req.payMethod.value);
    if req.amount < 0 || pt.None? || m.None? then None
    else
      Some(p.(amount := req.amount, paymentType := pt.value, payMethod := m.value,
              recordedBy := if req.recordedBy.Some? then TrimOpt(req.recordedBy) else p.recordedBy,
              note := if req.note.Some? then TrimOpt(req.note) else p.note,
              updatedAt := now))
  }

  /** `updatePayment`. */
  function UpdatePayment(db: Db, id: Id, req: UpdatePaymentRequest, now: Instant): Step
  {
    if id !in db.payments then Step(db, NotFound)
    else
      var before := db.payments[id];
      match Revised(before, req, now)
      case None => Step(db, BadRequest(ValidationFailed))
      case Some(p) =>
        var difference := req.amount - before.amount;
        var students := if difference != 0 then PaymentStatusUpdated(db.students, before.studentId, difference, now)
                        else db.students;
        Step(db.(payments := db.payments[id := p], students := students), Updated(id))
  }

  /** `deletePayment`. */
  function DeletePayment(db: Db, id: Id, now: Instant): Step
  {
    if id !in db.payments then Step(db, NotFound)
    else
      var p := db.payments[id];
      Step(db.(students := PaymentStatusUpdated(db.students, p.studentId, -p.amount, now),
               payments := db.payments - {id}),
           Deleted)
  }

  // ---------------------------------------------------------------------------
  // Properties
  // ---------------------------------------------------------------------------

  /** The outcomes of `recordPayment`: 400 for a missing field, 404 for an unknown
      student, 400 for a payment the schema rejects, 201 otherwise; every error
      writes nothing. */
  lemma RecordPaymentOutcomes(db: Db, req: RecordPaymentRequest, now: Instant)
    ensures var s := RecordPayment(db, req, now);
      && (MissingRequired(req) ==> s.response == BadRequest(MissingFields))
      && (!MissingRequired(req) && req.studentId.value !in db.students ==> s.response == NotFound)
      && (s.response.Created? <==>
            !MissingRequired(req) && req.studentId.value in db.students &&
            NewPayment(req.studentId.value, req.amount.value, req.paymentType, req.payMethod, req.recordedBy, req.note, now).Some?)
      && (!s.response.Created? ==> s.db == db)
  {
  }

  /** A successful `recordPayment` of amount A stores one new payment of amount A and
      raises that student's `paidAmount` by exactly A; the debt fields are re-derived,
      the attended count is untouched and every other student is unchanged. */
  lemma RecordPaymentDelta(db: Db, req: RecordPaymentRequest, now: Instant)
    requires RecordPayment(db, req, now).response.Created?
    ensures var s := RecordPayment(db, req, now);
      var sid := req.studentId.value;
      && s.response == Created(db.nextId)
      && s.db.payments == db.payments[db.nextId := s.db.payments[db.nextId]]
      && s.db.payments[db.nextId].amount == req.amount.value
      && s.db.payments[db.nextId].studentId == sid
      && s.db.students.Keys == db.students.Keys
      && s.db.students[sid].paidAmount == db.students[sid].paidAmount + req.amount.value
      && s.db.students[sid].lastPaymentDate == Some(now)
      && s.db.students[sid].totalAmount == db.students[sid].totalAmount
      && s.db.students[sid].totalAttendedSessions == db.students[sid].totalAttendedSessions
      && DebtConsistent(s.db.students[sid])
      && (forall j :: j in db.students && j != sid ==> s.db.students[j] == db.students[j])
  {
  }

  /** After a successful `recordPayment` the reminder is re-evaluated only when the
      first enrolled class exists with a non-zero `totalSessions`; only that class is
      consulted, and otherwise the reminder keeps its old value. */
  lemma RecordPaymentReminder(db: Db, req: RecordPaymentRequest, now: Instant)
    requires RecordPayment(db, req, now).response.Created?
    ensures var s := RecordPayment(db, req, now);
      var sid := req.studentId.value;
      var d := db.students[sid];
      s.db.students[sid].nextPaymentReminderDate ==
        match ReminderSessions(d.classes, db.classes)
        case None => d.nextPaymentReminderDate
        case Some(total) => if ReminderDue(total, d.totalAttendedSessions) then Some(now) else None
  {
  }

  /** `updatePayment`: an unknown id answers 404 and writes nothing; a successful update
      moves the student's `paidAmount` by exactly new minus old, and leaves the student
      untouched when the amount did not change. */
  lemma UpdatePaymentDelta(db: Db, id: Id, req: UpdatePaymentRequest, now: Instant)
    ensures id !in db.payments ==> UpdatePayment(db, id, req, now) == Step(db, NotFound)
    ensures var s := UpdatePayment(db, id, req, now);
      s.response.Updated? ==>
        var before := db.payments[id];
        && s.db.payments.Keys == db.payments.Keys
        && s.db.payments[id].amount == req.amount
        && s.db.students.Keys == db.students.Keys
        && (req.amount == before.amount ==> s.db.students == db.students)
        && (before.studentId in db.students ==>
              s.db.students[before.studentId].paidAmount
                == db.students[before.studentId].paidAmount + (req.amount - before.amount))
        && (forall j :: j in db.students && j != before.studentId ==> s.db.students[j] == db.students[j])
    ensures !UpdatePayment(db, id, req, now).response.Updated? ==> UpdatePayment(db, id, req, now).db == db
  {
  }

  /** `deletePayment`: an unknown id answers 404 and writes nothing; otherwise the
      payment is removed, even when its student no longer exists, and that student's
      `paidAmount` drops by the payment's amount. */
  lemma DeletePaymentDelta(db: Db, id: Id, now: Instant)
    ensures id !in db.payments ==> DeletePayment(db, id, now) == Step(db, NotFound)
    ensures id in db.payments ==>
      var s := DeletePayment(db, id, now);
      var p := db.payments[id];
      && s.response == Deleted
      && s.db.payments == db.payments - {id}
      && s.db.students.Keys == db.students.Keys
      && (p.studentId !in db.students ==> s.db.students == db.students)
      && (p.studentId in db.students ==>
            s.db.students[p.studentId].paidAmount == db.students[p.studentId].paidAmount - p.amount)
      && (forall j :: j in db.students && j != p.studentId ==> s.db.students[j] == db.students[j])
      && s.db.classes == db.classes && s.db.attendances == db.attendances && s.db.nextId == db.nextId
  {
  }

  /** Round trip: recording a payment and then deleting it restores the payments
      collection and the student's `paidAmount`, `outstandingAmount` and `isDebt`
      (when they were consistent before), and no other student's money fields move. */
  lemma RecordThenDeletePayment(db: Db, req: RecordPaymentRequest, now1: Instant, now2: Instant)
    requires IdsBelow(db)
    requires RecordPayment(db, req, now1).response.Created?
    ensures var s1 := RecordPayment(db, req, now1);
      var s2 := DeletePayment(s1.db, s1.response.id, now2);
      var sid := req.studentId.value;
      && s2.response == Deleted
      && s2.db.payments == db.payments
      && s2.db.students.Keys == db.students.Keys
      && s2.db.students[sid].paidAmount == db.students[sid].paidAmount
      && (DebtConsistent(db.students[sid]) ==>
            s2.db.students[sid].outstandingAmount == db.students[sid].outstandingAmount &&
            s2.db.students[sid].isDebt == db.students[sid].isDebt)
      && (forall j :: j in db.students && j != sid ==> s2.db.students[j] == db.students[j])
  {
    RecordPaymentDelta(db, req, now1);
    assert db.nextId !in db.payments;
    DeleteRecorded(db, RecordPayment(db, req, now1).db, db.nextId, req.studentId.value, req.amount.value, now2);
  }

  /** Deleting a payment `pid` just added to `db` for student `sid` gives back `db`'s
      payments and `sid`'s money fields. */
  lemma DeleteRecorded(db: Db, db1: Db, pid: Id, sid: Id, amount: int, now: Instant)
    requires pid !in db.payments && pid in db1.payments && db1.payments == db.payments[pid := db1.payments[pid]]
    requires db1.payments[pid].studentId == sid && db1.payments[pid].amount == amount
    requires sid in db.students && db1.students.Keys == db.students.Keys
    requires db1.students[sid].paidAmount == db.students[sid].paidAmount + amount
    requires db1.students[sid].totalAmount == db.students[sid].totalAmount
    requires forall j :: j in db.students && j != sid ==> db1.students[j] == db.students[j]
    ensures var s2 := DeletePayment(db1, pid, now);
      && s2.response == Deleted
      && s2.db.payments == db.payments
      && s2.db.students.Keys == db.students.Keys
      && s2.db.students[sid].paidAmount == db.students[sid].paidAmount
      && (DebtConsistent(db.students[sid]) ==>
            s2.db.students[sid].outstandingAmount == db.students[sid].outstandingAmount &&
            s2.db.students[sid].isDebt == db.students[sid].isDebt)
      && (forall j :: j in db.students && j != sid ==> s2.db.students[j] == db.students[j])
  {
    assert db1.payments - {pid} == db.payments;
    DeletePaymentDelta(db1, pid, now);
  }

  /** A handler that only edits students' ledger fields and the payments keeps the
      collections' invariant when the payments it leaves are valid and fresh. */
  lemma PaymentsOnlyKeepInvariant(db: Db, db': Db)
    requires Invariant(db)
    requires db'.classes == db.classes && db'.attendances == db.attendances && db'.nextId >= db.nextId
    requires SameProfiles(db.students, db'.students)
    requires forall id :: id in db'.payments ==> id < db'.nextId && ValidPayment(db'.payments[id])
    ensures Invariant(db')
  {
    SameProfilesKeepPhones(db.students, db'.students);
  }

  /** Each payment handler keeps the collections' invariant. */
  lemma RecordPaymentKeepsInvariant(db: Db, req: RecordPaymentRequest, now: Instant)
    requires Invariant(db)
    ensures Invariant(RecordPayment(db, req, now).db)
  {
    var s := RecordPayment(db, req, now);
    if s.response.Created? {
      PaymentsOnlyKeepInvariant(db, s.db);
    }
  }

  lemma UpdatePaymentKeepsInvariant(db: Db, id: Id, req: UpdatePaymentRequest, now: Instant)
    requires Invariant(db)
    ensures Invariant(UpdatePayment(db, id, req, now).db)
  {
    var s := UpdatePayment(db, id, req, now);
    if s.response.Updated? {
      PaymentsOnlyKeepInvariant(db, s.db);
    }
  }

  lemma DeletePaymentKeepsInvariant(db: Db, id: Id, now: Instant)
    requires Invariant(db)
    ensures Invariant(DeletePayment(db, id, now).db)
  {
    var s := DeletePayment(db, id, now);
    if s.response.Deleted? {
      PaymentsOnlyKeepInvariant(db, s.db);
    }
  }

  /** Each payment handler saves the students it changes, so the debt invariant of
      the Student pre-save hook is kept. */
  lemma PaymentHandlersKeepDebtConsistent(db: Db, rreq: RecordPaymentRequest, id: Id, ureq: UpdatePaymentRequest, now: Instant)
    requires AllDebtConsistent(db.students)
    ensures AllDebtConsistent(RecordPayment(db, rreq, now).db.students)
    ensures AllDebtConsistent(UpdatePayment(db, id, ureq, now).db.students)
    ensures AllDebtConsistent(DeletePayment(db, id, now).db.students)
  {
    RecordPaymentKeepsDebtConsistent(db, rreq, now);
    UpdatePaymentKeepsDebtConsistent(db, id, ureq, now);
  }

  lemma RecordPaymentKeepsDebtConsistent(db: Db, req: RecordPaymentRequest, now: Instant)
    requires AllDebtConsistent(db.students)
    ensures AllDebtConsistent(RecordPayment(db, req, now).db.students)
  {
  }

  lemma UpdatePaymentKeepsDebtConsistent(db: Db, id: Id, req: UpdatePaymentRequest, now: Instant)
    requires AllDebtConsistent(db.students)
    ensures AllDebtConsistent(UpdatePayment(db, id, req, now).db.students)
  {
  }
}
