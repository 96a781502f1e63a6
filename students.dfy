/** The Student document (server/models/Student.js): its fields and defaults, the two
    pre-save hooks that re-derive the debt fields, and the three statics that the
    ledgers call to maintain the running counters. */
module Students {
  import opened Common

  datatype Gender = Nam | Nu | Khac

  datatype StudentStatus = Active | OnHold | Completed | Dropped

  /** The string the schema stores for a gender. */
  function GenderName(g: Gender): string
  {
    match g
    case Nam => "Nam"
    case Nu => "Nữ"
    case Khac => "Khác"
  }

  /** The `gender` enum validator (`Nam`, `Nữ`, `Khác`). */
  function ParseGender(s: string): (r: Option<Gender>)
    ensures r.Some? <==> s == "Nam" || s == "Nữ" || s == "Khác"
    ensures r.Some? ==> GenderName(r.value) == s
  {
    if s == "Nam" then Some(Nam)
    else if s == "Nữ" then Some(Nu)
    else if s == "Khác" then Some(Khac)
    else None
  }

  /** The string the schema stores for a student status. */
  function StudentStatusName(st: StudentStatus): string
  {
    match st
    case Active => "Active"
    case OnHold => "On Hold"
    case Completed => "Completed"
    case Dropped => "Dropped"
  }

  /** The `status` enum validator. */
  function ParseStudentStatus(s: string): (r: Option<StudentStatus>)
    ensures r.Some? <==> s == "Active" || s == "On Hold" || s == "Completed" || s == "Dropped"
    ensures r.Some? ==> StudentStatusName(r.value) == s
  {
    if s == "Active" then Some(Active)
    else if s == "On Hold" then Some(OnHold)
    else if s == "Completed" then Some(Completed)
    else if s == "Dropped" then Some(Dropped)
    else None
  }

  /** One entry of `classes`: a class reference, possibly null, and its enrollment date. */
  datatype Enrollment = Enrollment(classId: Option<Id>, enrollmentDate: Instant)

  /** The value of a student document; the `paymentStatus` sub-document is flattened
      into its six fields. */
  datatype StudentDoc = StudentDoc(
    fullName: string,
    phoneNumber: string,
    gender: Gender,
    classes: seq<Enrollment>,
    totalAmount: int,
    paidAmount: int,
    outstandingAmount: int,
    lastPaymentDate: Option<Instant>,
    nextPaymentReminderDate: Option<Instant>,
    isDebt: bool,
    totalAttendedSessions: int,
    status: StudentStatus,
    createdAt: Instant,
    updatedAt: Instant)

  /** The invariant the second pre-save hook restores. */
  predicate DebtConsistent(d: StudentDoc)
  {
    d.outstandingAmount == d.totalAmount - d.paidAmount && d.isDebt == (d.outstandingAmount > 0)
  }

  /** The fields no ledger operation writes. */
  predicate SameProfile(a: StudentDoc, b: StudentDoc)
  {
    a.fullName == b.fullName && a.phoneNumber == b.phoneNumber && a.gender == b.gender &&
    a.classes == b.classes && a.status == b.status && a.createdAt == b.createdAt
  }

  /** `student.save()`: the first hook stamps `updatedAt`, the second re-derives
      `outstandingAmount` and `isDebt`; nothing else changes. */
  function Saved(d: StudentDoc, now: Instant): (r: StudentDoc)
    ensures DebtConsistent(r) && r.updatedAt == now
    ensures r.(outstandingAmount := d.outstandingAmount, isDebt := d.isDebt, updatedAt := d.updatedAt) == d
  {
    var outstanding := d.totalAmount - d.paidAmount;
    d.(updatedAt := now, outstandingAmount := outstanding, isDebt := outstanding > 0)
  }

  /** Saving a document whose debt fields are already consistent only stamps `updatedAt`. */
  lemma SaveConsistent(d: StudentDoc, now: Instant)
    requires DebtConsistent(d)
    ensures Saved(d, now) == d.(updatedAt := now)
  {
  }

  /** The body of `updateAttendedSessions` on a loaded document. */
  function WithAttended(d: StudentDoc, k: int, now: Instant): (r: StudentDoc)
    ensures r.totalAttendedSessions == d.totalAttendedSessions + k
    ensures r.totalAmount == d.totalAmount && r.paidAmount == d.paidAmount
    ensures r.lastPaymentDate == d.lastPaymentDate && r.nextPaymentReminderDate == d.nextPaymentReminderDate
    ensures SameProfile(d, r) && DebtConsistent(r) && r.updatedAt == now
  {
    Saved(d.(totalAttendedSessions := d.totalAttendedSessions + k), now)
  }

  /** The body of `updatePaymentStatus` on a loaded document. */
  function WithPayment(d: StudentDoc, amount: int, now: Instant): (r: StudentDoc)
    ensures r.paidAmount == d.paidAmount + amount && r.lastPaymentDate == Some(now)
    ensures r.totalAmount == d.totalAmount
    ensures r.totalAttendedSessions == d.totalAttendedSessions && r.nextPaymentReminderDate == d.nextPaymentReminderDate
    ensures SameProfile(d, r) && DebtConsistent(r) && r.updatedAt == now
  {
    Saved(d.(paidAmount := d.paidAmount + amount, lastPaymentDate := Some(now)), now)
  }

  /** The reminder threshold: one or two sessions left. */
  predicate ReminderDue(classTotalSessions: int, attended: int)
  {
    var remaining := classTotalSessions - attended;
    remaining <= 2 && remaining > 0
  }

  /** The body of `setPaymentReminder` on a loaded document. */
  function WithReminder(d: StudentDoc, classTotalSessions: int, now: Instant): (r: StudentDoc)
    ensures r.nextPaymentReminderDate.Some? <==> 0 < classTotalSessions - d.totalAttendedSessions <= 2
    ensures r.nextPaymentReminderDate.Some? ==> r.nextPaymentReminderDate.value == now
    ensures r.totalAmount == d.totalAmount && r.paidAmount == d.paidAmount && r.lastPaymentDate == d.lastPaymentDate
    ensures r.totalAttendedSessions == d.totalAttendedSessions
    ensures SameProfile(d, r) && DebtConsistent(r) && r.updatedAt == now
  {
    var due := ReminderDue(classTotalSessions, d.totalAttendedSessions);
    Saved(d.(nextPaymentReminderDate := if due then Some(now) else None), now)
  }

  /** A new document: the schema defaults, then the pre-save hooks. */
  function NewStudent(fullName: string, phoneNumber: string, gender: Gender, classes: seq<Enrollment>,
                      status: StudentStatus, now: Instant): (r: StudentDoc)
    ensures r.totalAmount == 0 && r.paidAmount == 0 && r.outstandingAmount == 0 && !r.isDebt
    ensures r.totalAttendedSessions == 0 && r.lastPaymentDate.None? && r.nextPaymentReminderDate.None?
    ensures r.fullName == fullName && r.phoneNumber == phoneNumber && r.classes == classes
    ensures r.gender == gender && r.status == status && r.createdAt == now && r.updatedAt == now
    ensures DebtConsistent(r)
  {
    Saved(StudentDoc(fullName, phoneNumber, gender, classes, 0, 0, 0, None, None, false, 0, status, now, now), now)
  }

  /** `Student.create`: fullName and phoneNumber are trimmed and then required (so a
      value of spaces only is rejected), gender defaults to `Khác` and status to
      `Active`, and both must pass their enum validators. */
  function CreateStudent(fullName: string, phoneNumber: string, gender: Option<string>, classes: seq<Enrollment>,
                         status: Option<string>, now: Instant): (r: Option<StudentDoc>)
    ensures r.Some? <==> !Blank(fullName) && !Blank(phoneNumber) &&
                         (gender.None? || ParseGender(gender.value).Some?) &&
                         (status.None? || ParseStudentStatus(status.value).Some?)
    ensures r.Some? ==> r.value.fullName == Trim(fullName) && r.value.phoneNumber == Trim(phoneNumber)
    ensures r.Some? && gender.None? ==> r.value.gender == Khac
    ensures r.Some? && status.None? ==> r.value.status == Active
    ensures r.Some? && gender.Some? ==> GenderName(r.value.gender) == gender.value
    ensures r.Some? && status.Some? ==> StudentStatusName(r.value.status) == status.value
    ensures r.Some? ==> r.value.totalAttendedSessions == 0 && r.value.paidAmount == 0 && DebtConsistent(r.value)
  {
    var g := if gender.None? then Some(Khac) else ParseGender(gender.value);
    var st := if status.None? then Some(Active) else ParseStudentStatus(status.value);
    TrimBlank(fullName);
    TrimBlank(phoneNumber);
    var name, phone := Trim(fullName), Trim(phoneNumber);
    if name == "" || phone == "" || g.None? || st.None? then None
    else Some(NewStudent(name, phone, g.value, classes, st.value, now))
  }

  /** Padding around the name or the phone number makes no difference: the same
      document is created, so " 0901" and "0901" are one value for the unique index. */
  lemma CreateStudentIgnoresPadding(p: string, fullName: string, q: string, p': string, phoneNumber: string, q': string,
                                    gender: Option<string>, classes: seq<Enrollment>, status: Option<string>, now: Instant)
    requires Blank(p) && Blank(q) && Blank(p') && Blank(q')
    ensures CreateStudent(p + fullName + q, p' + phoneNumber + q', gender, classes, status, now) ==
            CreateStudent(fullName, phoneNumber, gender, classes, status, now)
  {
    TrimIgnoresPadding(p, fullName, q);
    TrimIgnoresPadding(p', phoneNumber, q');
  }

  // ---------------------------------------------------------------------------
  // The statics, on the collection: each loads one document by id, changes it and
  // saves it; an unknown id returns null and changes nothing.
  // ---------------------------------------------------------------------------

  /** `Student.updateAttendedSessions(studentId, sessionsToAdd)`. */
  function AttendedSessionsUpdated(students: map<Id, StudentDoc>, id: Id, k: int, now: Instant): (r: map<Id, StudentDoc>)
    ensures r.Keys == students.Keys
    ensures id in students ==> r[id].totalAttendedSessions == students[id].totalAttendedSessions + k
    ensures forall j :: j in students && j != id ==> r[j] == students[j]
  {
    if id in students then students[id := WithAttended(students[id], k, now)] else students
  }

  /** `Student.updatePaymentStatus(studentId, amountPaid)`. */
  function PaymentStatusUpdated(students: map<Id, StudentDoc>, id: Id, amount: int, now: Instant): (r: map<Id, StudentDoc>)
    ensures r.Keys == students.Keys
    ensures id in students ==> r[id].paidAmount == students[id].paidAmount + amount
    ensures forall j :: j in students && j != id ==> r[j] == students[j]
  {
    if id in students then students[id := WithPayment(students[id], amount, now)] else students
  }

  /** `Student.setPaymentReminder(studentId, classTotalSessions)`. */
  function PaymentReminderSet(students: map<Id, StudentDoc>, id: Id, classTotalSessions: int, now: Instant): (r: map<Id, StudentDoc>)
    ensures r.Keys == students.Keys
    ensures id in students ==> (r[id].nextPaymentReminderDate.Some? <==> ReminderDue(classTotalSessions, students[id].totalAttendedSessions))
    ensures forall j :: j in students && j != id ==> r[j] == students[j]
  {
    if id in students then students[id := WithReminder(students[id], classTotalSessions, now)] else students
  }

  /** The reminder rule at the counts `0 < remaining <= 2`: with 10 sessions, attended
      counts 8 and 9 raise the reminder, 7 and 10 clear it. */
  lemma ReminderThresholds(d: StudentDoc, now: Instant)
    ensures d.totalAttendedSessions == 7 ==> WithReminder(d, 10, now).nextPaymentReminderDate.None?
    ensures d.totalAttendedSessions == 8 ==> WithReminder(d, 10, now).nextPaymentReminderDate == Some(now)
    ensures d.totalAttendedSessions == 9 ==> WithReminder(d, 10, now).nextPaymentReminderDate == Some(now)
    ensures d.totalAttendedSessions == 10 ==> WithReminder(d, 10, now).nextPaymentReminderDate.None?
  {
  }

  // ---------------------------------------------------------------------------
  // The document as a mutable object.
  // ---------------------------------------------------------------------------

  /** A loaded student document; the statics and the controllers assign its fields
      and then call `Save`. */
  class Student {
    var fullName: string
    var phoneNumber: string
    var gender: Gender
    var classes: seq<Enrollment>
    var totalAmount: int
    var paidAmount: int
    var outstandingAmount: int
    var lastPaymentDate: Option<Instant>
    var nextPaymentReminderDate: Option<Instant>
    var isDebt: bool
    var totalAttendedSessions: int
    var status: StudentStatus
    var createdAt: Instant
    var updatedAt: Instant

    /** The document's current value. */
    function View(): StudentDoc
      reads this
    {
      StudentDoc(fullName, phoneNumber, gender, classes, totalAmount, paidAmount, outstandingAmount,
                 lastPaymentDate, nextPaymentReminderDate, isDebt, totalAttendedSessions, status,
                 createdAt, updatedAt)
    }

    /** A new document with the schema defaults, saved once. */
    constructor (fullName: string, phoneNumber: string, gender: Gender, classes: seq<Enrollment>,
                 status: StudentStatus, now: Instant)
      ensures View() == NewStudent(fullName, phoneNumber, gender, classes, status, now)
    {
      this.fullName := fullName;
      this.phoneNumber := phoneNumber;
      this.gender := gender;
      this.classes := classes;
      this.totalAmount := 0;
      this.paidAmount := 0;
      this.outstandingAmount := 0;
      this.lastPaymentDate := None;
      this.nextPaymentReminderDate := None;
      this.isDebt := false;
      this.totalAttendedSessions := 0;
      this.status := status;
      this.createdAt := now;
      this.updatedAt := now;
      new;
      Save(now);
    }

    /** `findById`: a fresh document object holding a stored value. */
    constructor Load(d: StudentDoc)
      ensures View() == d
    {
      fullName, phoneNumber, gender, classes := d.fullName, d.phoneNumber, d.gender, d.classes;
      totalAmount, paidAmount, outstandingAmount := d.totalAmount, d.paidAmount, d.outstandingAmount;
      lastPaymentDate, nextPaymentReminderDate, isDebt := d.lastPaymentDate, d.nextPaymentReminderDate, d.isDebt;
      totalAttendedSessions, status, createdAt, updatedAt := d.totalAttendedSessions, d.status, d.createdAt, d.updatedAt;
    }

    /** `save()` with its two pre-save hooks. */
    method Save(now: Instant)
      modifies this
      ensures View() == Saved(old(View()), now)
    {
      updatedAt := now;
      outstandingAmount := totalAmount - paidAmount;
      isDebt := outstandingAmount > 0;
    }

    /** `student.totalAttendedSessions += sessionsToAdd; await student.save()`. */
    method AddAttendedSessions(sessionsToAdd: int, now: Instant)
      modifies this
      ensures View() == WithAttended(old(View()), sessionsToAdd, now)
    {
      totalAttendedSessions := totalAttendedSessions + sessionsToAdd;
      Save(now);
    }

    /** `student.paymentStatus.paidAmount += amountPaid`, stamp `lastPaymentDate`, save. */
    method AddPayment(amountPaid: int, now: Instant)
      modifies this
      ensures View() == WithPayment(old(View()), amountPaid, now)
    {
      paidAmount := paidAmount + amountPaid;
      lastPaymentDate := Some(now);
      Save(now);
    }

    /** Set the reminder when one or two sessions remain, clear it otherwise, save. */
    method ApplyPaymentReminder(classTotalSessions: int, now: Instant)
      modifies this
      ensures View() == WithReminder(old(View()), classTotalSessions, now)
    {
      var sessionsRemaining := classTotalSessions - totalAttendedSessions;
      if sessionsRemaining <= 2 && sessionsRemaining > 0 {
        nextPaymentReminderDate := Some(now);
      } else {
        nextPaymentReminderDate := None;
      }
      Save(now);
    }
  }
}
