/** The database as values: one map per collection, the HTTP outcomes the
    controllers answer with, the invariants the collections keep, and the
    per-attendee counter updates shared by the attendance handlers. */
module Ledger {
  import opened Common
  import opened Records
  import opened Students

  /** The four collections and the source of fresh ObjectIds. */
  datatype Db = Db(
    students: map<Id, StudentDoc>,
    classes: map<Id, ClassDoc>,
    payments: map<Id, Payment>,
    attendances: map<Id, Attendance>,
    nextId: nat)

  /** Why a request was answered with 400. */
  datatype BadRequestReason =
    | MissingFields     // the handler's own required-field check
    | ClassNotFound     // recordAttendance's "Class not found."
    | ValidationFailed  // a schema validator rejected the document
    | DuplicateKey      // a unique index rejected the document

  /** The response a handler sends. */
  datatype Response =
    | Created(id: Id)
    | Updated(id: Id)
    | Deleted
    | BadRequest(reason: BadRequestReason)
    | NotFound

  /** The HTTP status code of a response. */
  function StatusCode(r: Response): (code: nat)
    ensures code in {200, 201, 400, 404}
    ensures code == 201 <==> r.Created?
    ensures code == 400 <==> r.BadRequest?
    ensures code == 404 <==> r.NotFound?
  {
    match r
    case Created(_) => 201
    case Updated(_) => 200
    case Deleted => 200
    case BadRequest(_) => 400
    case NotFound => 404
  }

  /** A handler's effect: the new database and the response. */
  datatype Step = Step(db: Db, response: Response)

  /** Every id in use is below `nextId`, so `nextId` is fresh in every collection. */
  ghost predicate IdsBelow(db: Db)
  {
    (forall id :: id in db.students ==> id < db.nextId) &&
    (forall id :: id in db.classes ==> id < db.nextId) &&
    (forall id :: id in db.payments ==> id < db.nextId) &&
    (forall id :: id in db.attendances ==> id < db.nextId)
  }

  /** The unique index on `phoneNumber`. */
  ghost predicate UniquePhones(students: map<Id, StudentDoc>)
  {
    forall i, j :: i in students && j in students && i != j ==> students[i].phoneNumber != students[j].phoneNumber
  }

  /** What the schemas and the handlers keep true of the stored collections:
      ids are fresh, every record passes its validators, the unique indexes hold,
      and every attendance record is stored under the start of its day. */
  ghost predicate Invariant(db: Db)
  {
    && IdsBelow(db)
    && UniquePhones(db.students)
    && (forall id :: id in db.classes ==> ValidClass(db.classes[id]))
    && UniqueClassNames(db.classes)
    && (forall id :: id in db.payments ==> ValidPayment(db.payments[id]))
    && (forall id :: id in db.attendances ==> ValidAttendance(db.attendances[id]) && IsDayStart(db.attendances[id].date))
    && UniqueClassDate(db.attendances)
  }

  /** The derived-field invariant of the Student pre-save hook, for every student. */
  ghost predicate AllDebtConsistent(students: map<Id, StudentDoc>)
  {
    forall id :: id in students ==> DebtConsistent(students[id])
  }

  /** Two versions of the students collection with the same ids and profiles. */
  ghost predicate SameProfiles(a: map<Id, StudentDoc>, b: map<Id, StudentDoc>)
  {
    a.Keys == b.Keys && forall id :: id in a ==> SameProfile(a[id], b[id])
  }

  lemma SameProfilesKeepPhones(a: map<Id, StudentDoc>, b: map<Id, StudentDoc>)
    requires SameProfiles(a, b) && UniquePhones(a)
    ensures UniquePhones(b)
  {
    forall i, j | i in b && j in b && i != j
      ensures b[i].phoneNumber != b[j].phoneNumber
    {
      assert SameProfile(a[i], b[i]) && SameProfile(a[j], b[j]);
    }
  }

  // ---------------------------------------------------------------------------
  // Per-attendee counter updates: a loop over attendees calls
  // updateAttendedSessions(studentId, k) for each attendee it selects. The
  // selection is written as a list of targets, one per attendee, None for an
  // attendee the loop skips.
  // ---------------------------------------------------------------------------

  /** The students collection after the loop has visited every target in order. */
  function AdjustEach(students: map<Id, StudentDoc>, targets: seq<Option<Id>>, k: int, now: Instant): (r: map<Id, StudentDoc>)
    ensures r.Keys == students.Keys
    ensures forall id :: id in r ==> SameProfile(students[id], r[id])
    ensures forall id :: id in r ==> r[id].totalAmount == students[id].totalAmount && r[id].paidAmount == students[id].paidAmount
    ensures forall id :: id in r ==> r[id].lastPaymentDate == students[id].lastPaymentDate
    ensures forall id :: id in r ==> r[id].nextPaymentReminderDate == students[id].nextPaymentReminderDate
    decreases |targets|
  {
    if targets == [] then students
    else
      var before := AdjustEach(students, targets[..|targets| - 1], k, now);
      var last := targets[|targets| - 1];
      if last.Some? then AttendedSessionsUpdated(before, last.value, k, now) else before
  }

  /** How many targets name student `id`. */
  function Occurrences(targets: seq<Option<Id>>, id: Id): nat
    decreases |targets|
  {
    if targets == [] then 0
    else Occurrences(targets[..|targets| - 1], id) + (if targets[|targets| - 1] == Some(id) then 1 else 0)
  }

  /** Each student's counter moves by `k` once per target naming them; a student no
      target names is left exactly as it was, and a student some target names ends
      with consistent debt fields. */
  lemma AdjustEachCounts(students: map<Id, StudentDoc>, targets: seq<Option<Id>>, k: int, now: Instant, id: Id)
    requires id in students
    ensures AdjustEach(students, targets, k, now)[id].totalAttendedSessions
            == students[id].totalAttendedSessions + k * Occurrences(targets, id)
    ensures Occurrences(targets, id) == 0 ==> AdjustEach(students, targets, k, now)[id] == students[id]
    ensures Occurrences(targets, id) > 0 ==> DebtConsistent(AdjustEach(students, targets, k, now)[id])
  {
    AdjustEachTotal(students, targets, k, now, id);
    AdjustEachUntouched(students, targets, k, now, id);
    AdjustEachTouched(students, targets, k, now, id);
  }

  lemma {:induction false} AdjustEachTotal(students: map<Id, StudentDoc>, targets: seq<Option<Id>>, k: int, now: Instant, id: Id)
    requires id in students
    ensures AdjustEach(students, targets, k, now)[id].totalAttendedSessions
            == students[id].totalAttendedSessions + k * Occurrences(targets, id)
    decreases |targets|
  {
    if targets != [] {
      var init, last := targets[..|targets| - 1], targets[|targets| - 1];
      AdjustEachTotal(students, init, k, now, id);
      AdjustEachLast(students, targets, k, now, id);
      var n := Occurrences(init, id);
      if last == Some(id) {
        assert Occurrences(targets, id) == n + 1;
        MulSucc(k, n);
      } else {
        assert Occurrences(targets, id) == n;
      }
    }
  }

  lemma {:induction false} AdjustEachUntouched(students: map<Id, StudentDoc>, targets: seq<Option<Id>>, k: int, now: Instant, id: Id)
    requires id in students
    ensures Occurrences(targets, id) == 0 ==> AdjustEach(students, targets, k, now)[id] == students[id]
    decreases |targets|
  {
    if targets != [] {
      AdjustEachUntouched(students, targets[..|targets| - 1], k, now, id);
      AdjustEachLast(students, targets, k, now, id);
    }
  }

  lemma {:induction false} AdjustEachTouched(students: map<Id, StudentDoc>, targets: seq<Option<Id>>, k: int, now: Instant, id: Id)
    requires id in students
    ensures Occurrences(targets, id) > 0 ==> DebtConsistent(AdjustEach(students, targets, k, now)[id])
    decreases |targets|
  {
    if targets != [] {
      AdjustEachTouched(students, targets[..|targets| - 1], k, now, id);
      AdjustEachLast(students, targets, k, now, id);
    }
  }

  /** The last target's iteration, as seen by one student. */
  lemma AdjustEachLast(students: map<Id, StudentDoc>, targets: seq<Option<Id>>, k: int, now: Instant, id: Id)
    requires id in students && targets != []
    ensures var before := AdjustEach(students, targets[..|targets| - 1], k, now);
            AdjustEach(students, targets, k, now)[id]
            == if targets[|targets| - 1] == Some(id) then WithAttended(before[id], k, now) else before[id]
  {
  }

  lemma MulSucc(k: int, n: nat)
    ensures k * (n + 1) == k * n + k
  {
  }

  /** Appending one target is one more loop iteration. */
  lemma AdjustEachSnoc(students: map<Id, StudentDoc>, targets: seq<Option<Id>>, t: Option<Id>, k: int, now: Instant)
    ensures AdjustEach(students, targets + [t], k, now)
            == (var before := AdjustEach(students, targets, k, now);
                if t.Some? then AttendedSessionsUpdated(before, t.value, k, now) else before)
  {
    assert (targets + [t])[..|targets|] == targets;
  }

  /** The loop keeps every student's debt fields consistent. */
  lemma AdjustEachKeepsDebtConsistent(students: map<Id, StudentDoc>, targets: seq<Option<Id>>, k: int, now: Instant)
    requires AllDebtConsistent(students)
    ensures AllDebtConsistent(AdjustEach(students, targets, k, now))
  {
    forall id | id in students
      ensures DebtConsistent(AdjustEach(students, targets, k, now)[id])
    {
      AdjustEachCounts(students, targets, k, now, id);
    }
  }
}
