/** The Attendance, Payment and Class record schemas: enumerations, defaults,
    validators and the pre-save hooks that refresh `updatedAt`. */
module Records {
  import opened Common

  // ---------------------------------------------------------------------------
  // Attendance (server/models/Attendence.js)
  // ---------------------------------------------------------------------------

  /** An attendee's status; the schema's enumeration. */
  datatype AttendeeStatus = Present | Absent | Late

  /** The string the schema stores for a status. */
  function StatusName(st: AttendeeStatus): string
  {
    match st
    case Present => "Present"
    case Absent => "Absent"
    case Late => "Late"
  }

  /** The enum validator: accepts exactly the three status names. */
  function ParseStatus(s: string): (r: Option<AttendeeStatus>)
    ensures r.Some? <==> s == "Present" || s == "Absent" || s == "Late"
    ensures r.Some? ==> StatusName(r.value) == s
  {
    if s == "Present" then Some(Present)
    else if s == "Absent" then Some(Absent)
    else if s == "Late" then Some(Late)
    else None
  }

  lemma StatusNameRoundTrip(st: AttendeeStatus)
    ensures ParseStatus(StatusName(st)) == Some(st)
  {
  }

  /** One entry of a stored attendance record; `studentId` is required. */
  datatype Attendee = Attendee(studentId: Id, status: AttendeeStatus, note: Option<string>)

  /** One entry as it arrives in a request body, before the schema casts it. */
  datatype AttendeeInput = AttendeeInput(studentId: Option<Id>, status: Option<string>, note: Option<string>)

  /** Casting one request entry into the schema: a missing studentId or an unknown
      status is a validation error; a missing status takes the default `Present`; the
      note is trimmed. */
  function ToAttendee(a: AttendeeInput): (r: Option<Attendee>)
    ensures r.Some? <==> a.studentId.Some? && (a.status.None? || ParseStatus(a.status.value).Some?)
    ensures r.Some? ==> r.value.studentId == a.studentId.value && r.value.note == TrimOpt(a.note)
    ensures r.Some? && a.status.None? ==> r.value.status == Present
    ensures r.Some? && a.status.Some? ==> StatusName(r.value.status) == a.status.value
  {
    if a.studentId.None? then None
    else if a.status.None? then Some(Attendee(a.studentId.value, Present, TrimOpt(a.note)))
    else
      match ParseStatus(a.status.value)
      case None => None
      case Some(st) => Some(Attendee(a.studentId.value, st, TrimOpt(a.note)))
  }

  /** Casting a whole attendee list: one invalid entry fails the whole save. */
  function ToAttendees(inputs: seq<AttendeeInput>): (r: Option<seq<Attendee>>)
    ensures r.Some? <==> forall i :: 0 <= i < |inputs| ==> ToAttendee(inputs[i]).Some?
    ensures r.Some? ==> |r.value| == |inputs|
    ensures r.Some? ==> forall i :: 0 <= i < |inputs| ==> ToAttendee(inputs[i]) == Some(r.value[i])
  {
    if inputs == [] then Some([])
    else
      match ToAttendee(inputs[0])
      case None => None
      case Some(first) =>
        match ToAttendees(inputs[1..])
        case None => None
        case Some(rest) => Some([first] + rest)
  }

  /** A stored attendance record: one per class and calendar day. */
  datatype Attendance = Attendance(
    classId: Id,
    date: Instant,
    sessionNumber: Option<int>,
    attendees: seq<Attendee>,
    createdAt: Instant,
    updatedAt: Instant)

  /** The schema's validators: `sessionNumber`, when present, is at least 1
      (classId, date and every attendee's studentId are required by their types). */
  predicate ValidAttendance(a: Attendance)
  {
    a.sessionNumber.Some? ==> a.sessionNumber.value >= 1
  }

  /** `Attendance.create`: validators, then the defaults and the pre-save hook. */
  function NewAttendance(classId: Id, date: Instant, sessionNumber: Option<int>, attendees: seq<Attendee>, now: Instant): (r: Option<Attendance>)
    ensures r.Some? <==> (sessionNumber.Some? ==> sessionNumber.value >= 1)
    ensures r.Some? ==> ValidAttendance(r.value)
    ensures r.Some? ==> r.value.classId == classId && r.value.date == date && r.value.sessionNumber == sessionNumber
    ensures r.Some? ==> r.value.attendees == attendees && r.value.createdAt == now && r.value.updatedAt == now
  {
    var a := Attendance(classId, date, sessionNumber, attendees, now, now);
    if ValidAttendance(a) then Some(a) else None
  }

  /** The pre-save hook of Attendence.js: every save refreshes `updatedAt`. */
  function TouchAttendance(a: Attendance, now: Instant): (r: Attendance)
    ensures r.updatedAt == now
    ensures r.(updatedAt := a.updatedAt) == a
  {
    a.(updatedAt := now)
  }

  /** The unique compound index `{ classId: 1, date: 1 }`. */
  ghost predicate UniqueClassDate(records: map<Id, Attendance>)
  {
    forall i, j :: i in records && j in records && i != j ==>
      records[i].classId != records[j].classId || records[i].date != records[j].date
  }

  // ---------------------------------------------------------------------------
  // Payment (server/models/Payment.js)
  // ---------------------------------------------------------------------------

  datatype PaymentType = Full | Partial

  datatype PaymentMethod = Cash | BankTransfer | CreditCard | Other

  /** The string the schema stores for a payment type. */
  function PaymentTypeName(t: PaymentType): string
  {
    match t
    case Full => "Full"
    case Partial => "Partial"
  }

  /** The string the schema stores for a payment method. */
  function MethodName(m: PaymentMethod): string
  {
    match m
    case Cash => "Cash"
    case BankTransfer => "Bank Transfer"
    case CreditCard => "Credit Card"
    case Other => "Other"
  }

  /** The `paymentType` enum validator. */
  function ParsePaymentType(s: string): (r: Option<PaymentType>)
    ensures r.Some? <==> s == "Full" || s == "Partial"
    ensures r.Some? ==> PaymentTypeName(r.value) == s
  {
    if s == "Full" then Some(Full)
    else if s == "Partial" then Some(Partial)
    else None
  }

  /** The `method` enum validator. */
  function ParsePaymentMethod(s: string): (r: Option<PaymentMethod>)
    ensures r.Some? <==> s == "Cash" || s == "Bank Transfer" || s == "Credit Card" || s == "Other"
    ensures r.Some? ==> MethodName(r.value) == s
  {
    if s == "Cash" then Some(Cash)
    else if s == "Bank Transfer" then Some(BankTransfer)
    else if s == "Credit Card" then Some(CreditCard)
    else if s == "Other" then Some(Other)
    else None
  }

  /** One payment transaction. */
  datatype Payment = Payment(
    studentId: Id,
    amount: int,
    paymentType: PaymentType,
    paymentDate: Instant,
    payMethod: PaymentMethod,
    recordedBy: Option<string>,
    note: Option<string>,
    createdAt: Instant,
    updatedAt: Instant)

  /** The schema's `min: 0` on `amount` (the enums are enforced by the types). */
  predicate ValidPayment(p: Payment)
  {
    p.amount >= 0
  }

  /** True when an optional `method` value passes the enum validator. */
  predicate MethodAccepted(m: Option<string>)
  {
    m.None? || ParsePaymentMethod(m.value).Some?
  }

  /** `Payment.create`: amount is required and at least 0, paymentType is required
      and Full or Partial, method defaults to Cash, paymentDate to the creation time;
      `recordedBy` and `note` are trimmed. */
  function NewPayment(studentId: Id, amount: int, paymentType: Option<string>, payMethod: Option<string>,
                      recordedBy: Option<string>, note: Option<string>, now: Instant): (r: Option<Payment>)
    ensures r.Some? <==> amount >= 0 && paymentType.Some? && ParsePaymentType(paymentType.value).Some? && MethodAccepted(payMethod)
    ensures r.Some? ==> ValidPayment(r.value) && r.value.studentId == studentId && r.value.amount == amount
    ensures r.Some? ==> r.value.paymentDate == now && r.value.createdAt == now && r.value.updatedAt == now
    ensures r.Some? && payMethod.None? ==> r.value.payMethod == Cash
    ensures r.Some? ==> r.value.recordedBy == TrimOpt(recordedBy) && r.value.note == TrimOpt(note)
  {
    if amount < 0 || paymentType.None? then None
    else
      match ParsePaymentType(paymentType.value)
      case None => None
      case Some(pt) =>
        if payMethod.None? then Some(Payment(studentId, amount, pt, now, Cash, TrimOpt(recordedBy), TrimOpt(note), now, now))
        else
          match ParsePaymentMethod(payMethod.value)
          case None => None
          case Some(m) => Some(Payment(studentId, amount, pt, now, m, TrimOpt(recordedBy), TrimOpt(note), now, now))
  }

  /** The pre-save hook of Payment.js: every save refreshes `updatedAt`. */
  function TouchPayment(p: Payment, now: Instant): (r: Payment)
    ensures r.updatedAt == now
    ensures r.(updatedAt := p.updatedAt) == p
  {
    p.(updatedAt := now)
  }

  // ---------------------------------------------------------------------------
  // Class (server/models/Class.js)
  // ---------------------------------------------------------------------------

  /** A class (course group). */
  datatype ClassDoc = ClassDoc(
    name: string,
    description: Option<string>,
    maxStudents: Option<int>,
    teacher: Option<string>,
    totalSessions: int,
    isActive: bool,
    createdAt: Instant,
    updatedAt: Instant)

  /** The schema's validators on a stored class: a non-empty name; `maxStudents`, when
      present, at least 1. */
  predicate ValidClass(c: ClassDoc)
  {
    c.name != "" && (c.maxStudents.Some? ==> c.maxStudents.value >= 1)
  }

  /** `Class.create`: `name`, `description` and `teacher` are trimmed first, so a name
      of spaces only fails `required`; then the validators and the defaults
      (totalSessions 0, isActive true). */
  function NewClass(name: string, description: Option<string>, maxStudents: Option<int>, teacher: Option<string>,
                    totalSessions: Option<int>, isActive: Option<bool>, now: Instant): (r: Option<ClassDoc>)
    ensures r.Some? <==> !Blank(name) && (maxStudents.Some? ==> maxStudents.value >= 1)
    ensures r.Some? ==> ValidClass(r.value) && r.value.name == Trim(name) && r.value.updatedAt == now
    ensures r.Some? ==> r.value.description == TrimOpt(description) && r.value.teacher == TrimOpt(teacher)
    ensures r.Some? && totalSessions.None? ==> r.value.totalSessions == 0
    ensures r.Some? && isActive.None? ==> r.value.isActive
  {
    TrimBlank(name);
    var c := ClassDoc(Trim(name), TrimOpt(description), maxStudents, TrimOpt(teacher),
                      if totalSessions.Some? then totalSessions.value else 0,
                      if isActive.Some? then isActive.value else true,
                      now, now);
    if ValidClass(c) then Some(c) else None
  }

  /** Padding around a class name makes no difference: the same class is created, so
      "  A1 " and "A1" are one name for the unique index. */
  lemma NewClassIgnoresPadding(p: string, name: string, q: string, description: Option<string>, maxStudents: Option<int>,
                               teacher: Option<string>, totalSessions: Option<int>, isActive: Option<bool>, now: Instant)
    requires Blank(p) && Blank(q)
    ensures NewClass(p + name + q, description, maxStudents, teacher, totalSessions, isActive, now) ==
            NewClass(name, description, maxStudents, teacher, totalSessions, isActive, now)
  {
    TrimIgnoresPadding(p, name, q);
  }

  /** The pre-save hook of Class.js: every save refreshes `updatedAt`. */
  function TouchClass(c: ClassDoc, now: Instant): (r: ClassDoc)
    ensures r.updatedAt == now
    ensures r.(updatedAt := c.updatedAt) == c
  {
    c.(updatedAt := now)
  }

  /** The unique index on `name`. */
  ghost predicate UniqueClassNames(classes: map<Id, ClassDoc>)
  {
    forall i, j :: i in classes && j in classes && i != j ==> classes[i].name != classes[j].name
  }
}
