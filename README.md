# Student, attendance and payment ledger: a Dafny model

This project models the core of a small student-management web application for a
language centre. An Express/Mongoose server keeps four collections: students,
classes, payments and attendance records. A React client edits them. The part
modelled here is the ledger:

- **Running counters.** Each student document carries `totalAttendedSessions` and a
  `paymentStatus` block: `totalAmount`, `paidAmount`, `outstandingAmount`, `isDebt`,
  `lastPaymentDate` and `nextPaymentReminderDate`.
- **Who maintains them.**
  - Three statics of the Student model: `updateAttendedSessions`,
    `updatePaymentStatus` and `setPaymentReminder`.
  - The payment handlers: record, update and delete.
  - The attendance handlers: record-or-update one record per class and calendar
    day, and delete.
  - The two pre-save hooks of the Student model, which re-derive
    `outstandingAmount = totalAmount - paidAmount` and `isDebt = outstandingAmount > 0`.
- **Access control.** The `protect`/`authorize` middleware.
- **Client logic behind the ledger:**
  - the student form's class list (empty rows dropped, the first row of each class
    kept);
  - the attendance page's status sheet (defaults, edits, the list sent on save);
  - the client-side filter that lists the students of a class.

The modules follow the program:

| file | module | models |
|---|---|---|
| common.dfy | `Common` | ids, instants, the calendar-day arithmetic behind `setHours(0, 0, 0, 0)` |
| records.dfy | `Records` | the Attendance, Payment and Class schemas: enums, defaults, validators, `updatedAt` hooks |
| students.dfy | `Students` | the Student schema; the document as a `class Student` whose methods are the statics' bodies and `save()` |
| ledger.dfy | `Ledger` | the database as a value, handler responses, the collections' invariant, the per-attendee counter loop |
| payment_controller.dfy | `PaymentController` | `recordPayment`, `updatePayment`, `deletePayment` as transitions of the database |
| attendance_controller.dfy | `AttendanceController` | `getAttendanceByClassAndDate`, `recordAttendance`, `deleteAttendance` as transitions |
| server.dfy | `Server` | the store as a `class Database`; each handler as a method proved equal to its transition; the write routes |
| auth.dfy | `Auth` | `protect` (bearer-token extraction, `split`/`join`) and `authorize` |
| student_form.dfy | `StudentForm` | `validClasses`, `handleClassChange`, `addClassField`, `removeClassField`, loading enrollments |
| attendance_sheet.dfy | `AttendanceSheet` | the status map of the attendance page and the body it saves |
| student_service.dfy | `StudentService` | `getStudentsByClassId` |

**Design:**

- **The database.**
  - It is a value `Db`: one map per collection, plus `nextId`, the source of fresh
    ObjectIds.
  - Each handler is a function from `Db` to `Step(db, response)`.
  - `Server.Database` holds the same maps as fields. Its methods load a document
    into a fresh `Student` object (`findById`), mutate it through the object's
    methods, and write its value back (`save`).
  - Each method's postcondition equates its effect with the handler's transition.
  - The attendance counter loops are `while` loops with invariants.
- **Time.** `now` is a parameter; instants are integers of milliseconds.
- **The JWT check.** It is the parameter `verify`.
- **Numbers.** JavaScript numbers are mathematical integers.

## Model

| member | source | states |
|---|---|---|
| Common.StartOfDay | server/controllers/attendanceController.js:139-140 | `setHours(0,0,0,0)` yields a day start whose day contains the instant |
| Common.DayStartUnique | server/controllers/attendanceController.js:142-148 | an instant lies in exactly one calendar day |
| Common.SameDayQuery | server/controllers/attendanceController.js:74-83 | the `$gte day, $lt next day` query matches exactly the instants of the same calendar day |
| Common.Trim | server/models/Class.js:10 | the `trim: true` setter: the result has no leading or trailing whitespace and is no longer than the input |
| Common.TrimOpt | server/models/Payment.js:30-37 | an optional trimmed field: absent stays absent, a given value is trimmed |
| Common.TrimBlank | server/models/Student.js:6-10 | a value trims to "" (and so fails `required`) iff it is all whitespace |
| Common.TrimIdempotent | server/models/Student.js:23-28 | trimming a stored value again changes nothing |
| Common.TrimUnpadded | server/models/Student.js:23-28 | a value without surrounding whitespace is stored as given |
| Common.TrimIgnoresPadding | server/models/Student.js:23-28 | whitespace around a value does not change what is stored |
| Records.ParseStatus | server/models/Attendence.js:28-32 | the status enum accepts exactly Present, Absent, Late, and the parsed status prints back as the input |
| Records.StatusNameRoundTrip | server/models/Attendence.js:28-32 | parsing a status's stored name gives the status back |
| Records.ToAttendee | server/models/Attendence.js:21-38 | an entry casts iff it has a studentId and no status or a valid one; a missing status becomes Present; the id is kept and the note is stored trimmed |
| Records.ToAttendees | server/models/Attendence.js:21-38 | a list casts iff every entry does, entry by entry, same length |
| Records.NewAttendance | server/models/Attendence.js:17-20 | creation fails iff a given sessionNumber is below 1; the stored record carries the given fields and `createdAt = updatedAt = now` |
| Records.TouchAttendance | server/models/Attendence.js:58-61 | the hook sets `updatedAt` to now and changes nothing else |
| Records.ParsePaymentType | server/models/Payment.js:16-20 | accepts exactly Full and Partial, and the parsed type prints back as the input |
| Records.ParsePaymentMethod | server/models/Payment.js:25-29 | accepts exactly Cash, Bank Transfer, Credit Card, Other, and the parsed method prints back as the input |
| Records.NewPayment | server/models/Payment.js:5-46 | creation succeeds iff the amount is at least 0, the payment type is present and valid and the method valid; method defaults to Cash, paymentDate to now; `recordedBy` and `note` are stored trimmed |
| Records.TouchPayment | server/models/Payment.js:49-52 | the hook sets `updatedAt` to now and changes nothing else |
| Records.NewClass | server/models/Class.js:5-41 | creation succeeds iff the name is not blank (it is trimmed before `required` runs) and a given maxStudents is at least 1; name, description and teacher are stored trimmed; totalSessions defaults to 0, isActive to true |
| Records.NewClassIgnoresPadding | server/models/Class.js:6-11 | names differing only by surrounding whitespace create the same class, so they clash on the unique name index |
| Records.TouchClass | server/models/Class.js:44-47 | the hook sets `updatedAt` to now and changes nothing else |
| Students.ParseGender | server/models/Student.js:14-18 | accepts exactly Nam, Nữ, Khác, and the parsed gender prints back as the input |
| Students.ParseStudentStatus | server/models/Student.js:83-87 | accepts exactly Active, On Hold, Completed, Dropped, and the parsed status prints back as the input |
| Students.Saved | server/models/Student.js:99-109 | after save the debt fields are consistent, `updatedAt` is now, and nothing else differs |
| Students.SaveConsistent | server/models/Student.js:105-109 | saving a consistent document only stamps `updatedAt` |
| Students.WithAttended | server/models/Student.js:116-120 | the attended count moves by exactly k; money fields and profile unchanged; debt fields consistent |
| Students.WithPayment | server/models/Student.js:134-140 | paidAmount rises by exactly the amount, lastPaymentDate is now; attended count, total and profile unchanged |
| Students.WithReminder | server/models/Student.js:162-173 | the reminder is set (to now) iff one or two sessions remain; nothing else but `updatedAt` and the debt fields changes |
| Students.NewStudent | server/models/Student.js:5-109 | a new document has all counters 0, no dates, debt fields consistent |
| Students.CreateStudent | server/models/Student.js:5-87 | creation succeeds iff name and phone are not blank once trimmed and gender/status valid; name and phone are stored trimmed; a given gender or status is stored as given; gender defaults to Khác, status to Active |
| Students.CreateStudentIgnoresPadding | server/models/Student.js:6-28 | a name or phone differing only by surrounding whitespace creates the same document, so " 0901" and "0901" clash on the unique phone index |
| Students.AttendedSessionsUpdated | server/models/Student.js:114-127 | only student `id` changes, by exactly k attended sessions; a missing student changes nothing |
| Students.PaymentStatusUpdated | server/models/Student.js:132-147 | only student `id` changes, paidAmount by exactly the amount |
| Students.PaymentReminderSet | server/models/Student.js:150-179 | only student `id` changes; its reminder is set iff `0 < total - attended <= 2` |
| Students.ReminderThresholds | server/models/Student.js:162-172 | with 10 sessions: attended 7 and 10 clear the reminder, 8 and 9 set it |
| Students.Student.constructor | server/models/Student.js:5-109 | the new object's value is the defaulted, saved document |
| Students.Student.Load | server/models/Student.js:116 | a loaded object holds the stored value |
| Students.Student.Save | server/models/Student.js:99-109 | the object's new value is the hooked, saved value |
| Students.Student.AddAttendedSessions | server/models/Student.js:118-119 | the object's new value is `WithAttended` of the old |
| Students.Student.AddPayment | server/models/Student.js:136-139 | the object's new value is `WithPayment` of the old |
| Students.Student.ApplyPaymentReminder | server/models/Student.js:162-173 | the object's new value is `WithReminder` of the old |
| Ledger.StatusCode | server/controllers/paymentController.js:99-142 | the status code is 201 iff created, 400 iff bad request, 404 iff not found |
| Ledger.SameProfilesKeepPhones | server/models/Student.js:23-28 | ledger updates, which keep profiles, keep the unique phone index |
| Ledger.AdjustEach | server/controllers/attendanceController.js:175-180 | the counter loop keeps the student ids, every profile and every money field |
| Ledger.AdjustEachCounts | server/controllers/attendanceController.js:175-180 | each student's count moves by k times the number of targets naming them; an unnamed student is untouched |
| Ledger.AdjustEachSnoc | server/controllers/attendanceController.js:176-179 | one more target is one more `updateAttendedSessions` call |
| Ledger.AdjustEachKeepsDebtConsistent | server/models/Student.js:105-109 | the loop keeps every student's debt fields consistent |
| PaymentController.ReminderSessions | server/controllers/paymentController.js:129-135 | the reminder uses the first enrollment's class only, when it exists with non-zero totalSessions |
| PaymentController.Revised | server/controllers/paymentController.js:178-182 | the update succeeds iff the amount is at least 0 and given enums valid; given enums are stored as given, `recordedBy` and `note` trimmed; omitted fields keep their values; `updatedAt` is now |
| PaymentController.RecordPaymentOutcomes | server/controllers/paymentController.js:99-122 | 400 for a missing field, 404 for an unknown student, 201 iff the payment validates; errors write nothing |
| PaymentController.RecordPaymentDelta | server/controllers/paymentController.js:115-125 | a recorded payment of A adds one payment of A under a fresh id and raises the student's paidAmount by exactly A; other students unchanged |
| PaymentController.RecordPaymentReminder | server/controllers/paymentController.js:129-135 | the reminder is re-evaluated against the first class's totalSessions, or kept |
| PaymentController.UpdatePaymentDelta | server/controllers/paymentController.js:167-194 | 404 for an unknown id; paidAmount moves by exactly new minus old, untouched when equal; errors write nothing |
| PaymentController.DeletePaymentDelta | server/controllers/paymentController.js:228-245 | 404 for an unknown id; the payment is removed and its student's paidAmount drops by its amount; the student keys, every other student and the other collections are unchanged |
| PaymentController.RecordThenDeletePayment | server/controllers/paymentController.js:95-265 | recording then deleting a payment restores the payments and the student's money fields |
| PaymentController.PaymentsOnlyKeepInvariant | server/models/Payment.js:11-15 | edits confined to payments and students' ledger fields keep the invariant |
| PaymentController.RecordPaymentKeepsInvariant | server/controllers/paymentController.js:95-158 | `recordPayment` keeps the collections' invariant |
| PaymentController.UpdatePaymentKeepsInvariant | server/controllers/paymentController.js:163-220 | `updatePayment` keeps the collections' invariant |
| PaymentController.DeletePaymentKeepsInvariant | server/controllers/paymentController.js:226-265 | `deletePayment` keeps the collections' invariant |
| PaymentController.PaymentHandlersKeepDebtConsistent | server/models/Student.js:105-109 | every payment handler keeps all students' debt fields consistent |
| AttendanceController.FindOnDay | server/controllers/attendanceController.js:145-148 | the lookup returns a record of that class on that day, or None when there is none |
| AttendanceController.AtMostOneOnDay | server/models/Attendence.js:55 | with day-start dates and the unique index, at most one record matches a class and a day |
| AttendanceController.CreditTargets | server/controllers/attendanceController.js:176-179 | entry i is credited iff it was sent with status "Present" |
| AttendanceController.DebitTargets | server/controllers/attendanceController.js:213-217 | entry i is debited iff it is stored as Present |
| AttendanceController.NextSessionNumber | server/controllers/attendanceController.js:153 | a missing or zero number keeps the stored one |
| AttendanceController.RecordAttendanceErrors | server/controllers/attendanceController.js:121-135 | a missing field or an unknown class answers 400 and writes nothing |
| AttendanceController.UpdateOnDayEffect | server/controllers/attendanceController.js:150-159 | the update branch rewrites only the found record's attendees and session number |
| AttendanceController.CreateOnDayEffect | server/controllers/attendanceController.js:160-172 | the create branch adds exactly one record, dated at the day start, under the fresh id |
| AttendanceController.RecordAttendanceUpsert | server/controllers/attendanceController.js:137-172 | an existing record for the class and day is updated and nothing added; otherwise one is created |
| AttendanceController.RecordAttendanceCredits | server/controllers/attendanceController.js:175-180 | each student gains one session per "Present" listing; others unchanged |
| AttendanceController.NotPresentNotCounted | server/controllers/attendanceController.js:177 | a student never listed "Present" gains nothing |
| AttendanceController.DeleteAttendanceDebits | server/controllers/attendanceController.js:203-219 | 404 for an unknown id; each student loses one session per stored Present entry; the record is removed |
| AttendanceController.ExplicitStatusTargets | server/controllers/attendanceController.js:176-179 | when every entry states a status, the delete loop debits exactly whom the record loop credited |
| AttendanceController.CreateThenDeleteAttendance | server/controllers/attendanceController.js:117-240 | creating a record with stated statuses and deleting it restores every count and the collection |
| AttendanceController.CreatedRecordRemoved | server/controllers/attendanceController.js:203-219 | deleting the created record restores the attendance collection |
| AttendanceController.UnstatedStatusLosesSession | server/controllers/attendanceController.js:176-177 | an entry without a status is stored Present but not credited, so create then delete leaves that student one session short |
| AttendanceController.RecordAttendanceKeepsInvariant | server/controllers/attendanceController.js:117-196 | `recordAttendance` keeps the invariant: never two records for a class on one day |
| AttendanceController.DeleteAttendanceKeepsInvariant | server/controllers/attendanceController.js:201-240 | `deleteAttendance` keeps the invariant |
| AttendanceController.AttendanceHandlersKeepDebtConsistent | server/models/Student.js:105-109 | both attendance handlers keep all students' debt fields consistent |
| AttendanceController.RecordedIsFoundOnDay | server/controllers/attendanceController.js:69-111 | after a save, the by-date lookup finds that record from any instant of the same day |
| AttendanceController.ResubmitUpdates | server/controllers/attendanceController.js:150-159 | saving the same request again takes the update branch on the same record |
| AttendanceController.ResubmitDoubleCounts | server/controllers/attendanceController.js:150-180 | saving the same request again credits every Present student a second time |
| Server.Database.UpdateAttendedSessions | server/models/Student.js:114-127 | the students become `AttendedSessionsUpdated` of the old ones |
| Server.Database.UpdatePaymentStatus | server/models/Student.js:132-147 | the students become `PaymentStatusUpdated` of the old ones |
| Server.Database.SetPaymentReminder | server/models/Student.js:150-179 | the students become `PaymentReminderSet` of the old ones |
| Server.Database.ReplacePaidAmount | server/controllers/paymentController.js:187-193 | the student's paidAmount loses the old and gains the new amount, then is saved |
| Server.Database.RevertPaidAmount | server/controllers/paymentController.js:238-243 | the student's paidAmount loses the amount, then is saved |
| Server.Database.ApplyPayment | server/controllers/paymentController.js:125-135 | the students become `PaymentApplied` of the old ones |
| Server.Database.RecordPayment | server/controllers/paymentController.js:95-158 | the store's new value and the response are those of `recordPayment`'s transition |
| Server.Database.UpdatePayment | server/controllers/paymentController.js:163-220 | the same, for `updatePayment` |
| Server.Database.DeletePayment | server/controllers/paymentController.js:226-265 | the same, for `deletePayment` |
| Server.Database.FindOnDay | server/controllers/attendanceController.js:145-148 | the scan returns the one record of the class on the day, as `FindOnDay` specifies |
| Server.Database.GetAttendanceByClassAndDate | server/controllers/attendanceController.js:69-111 | returns the class's record for the day holding the date, None for 404 |
| Server.Database.CreditPresent | server/controllers/attendanceController.js:175-180 | the loop leaves the students as `AdjustEach` with +1 over the credit targets |
| Server.Database.DebitPresent | server/controllers/attendanceController.js:212-217 | the loop leaves the students as `AdjustEach` with -1 over the debit targets |
| Server.Database.RecordAttendance | server/controllers/attendanceController.js:117-196 | the store's new value and the response are those of `recordAttendance`'s transition |
| Server.Database.DeleteAttendance | server/controllers/attendanceController.js:201-240 | the same, for `deleteAttendance` |
| Server.Database.Handle | server/routes/attendenceRoutes.js:14-15 | each write route runs its controller and the store stays valid |
| Server.DispatchKeepsInvariant | server/routes/paymentRoutes.js:16-17 | every write route's transition keeps the invariant |
| Server.CreditStep | server/controllers/attendanceController.js:177-178 | one credit-loop iteration is one more target of `AdjustEach` |
| Server.DebitStep | server/controllers/attendanceController.js:214-215 | one debit-loop iteration is one more target of `AdjustEach` |
| Auth.Split | server/middleware/auth.js:12 | `split` yields at least one piece |
| Auth.SplitPiecesLackSeparator | server/middleware/auth.js:12 | no piece contains the separator |
| Auth.JoinSplit | server/middleware/auth.js:12 | joining the pieces gives the header back |
| Auth.SplitJoin | server/middleware/auth.js:12 | splitting a join of separator-free pieces gives the pieces back |
| Auth.SplitNoSeparator | server/middleware/auth.js:12 | a string without the separator is one piece |
| Auth.ExtractToken | server/middleware/auth.js:11-13 | no token without a header starting "Bearer"; a token is non-empty and has no space |
| Auth.BearerToken | server/middleware/auth.js:11-13 | "Bearer", the token and further words yield exactly that token |
| Auth.TokenIsSecondWord | server/middleware/auth.js:11-13 | a token is always the second word of a "Bearer..." header |
| Auth.Protected | server/middleware/auth.js:7-35 | 401 iff there is no token or it fails verification; otherwise next, with the user the payload names |
| Auth.Request.Protect | server/middleware/auth.js:7-35 | the outcome is `Protected`'s; on next `req.user` is assigned, on 401 unchanged |
| Auth.Authorize | server/middleware/auth.js:38-48 | the outcome is next, 403 or a throw |
| Auth.AuthorizeByRole | server/middleware/auth.js:40-46 | a present user gets 403 iff the role is not listed, next iff it is |
| Auth.GuardedRoute | server/middleware/auth.js:7-48 | a guarded route runs iff the token verifies, names a stored user, and the role is listed |
| StudentForm.IdsOf | client/src/pages/AddEditStudentPage.jsx:100-108 | the set holds exactly the ids some row names |
| StudentForm.Filled | client/src/pages/AddEditStudentPage.jsx:101 | every row kept by the filter names a class |
| StudentForm.Find | client/src/pages/AddEditStudentPage.jsx:103 | `find` succeeds iff some row has that id, and returns such a row |
| StudentForm.FirstIndex | client/src/pages/AddEditStudentPage.jsx:102-108 | the index of the first row naming the id: it names it and no earlier row does |
| StudentForm.KeptIds | client/src/pages/AddEditStudentPage.jsx:100-108 | the kept rows name exactly the classes the rows name |
| StudentForm.KeptDistinct | client/src/pages/AddEditStudentPage.jsx:102-108 | every kept row names a class; no two name the same one |
| StudentForm.KeptFirstRows | client/src/pages/AddEditStudentPage.jsx:102-108 | each kept row is the first row naming its class |
| StudentForm.KeptInRowOrder | client/src/pages/AddEditStudentPage.jsx:102-108 | the kept rows appear in the order of their first rows |
| StudentForm.DedupeKept | client/src/pages/AddEditStudentPage.jsx:102-108 | the `reduce` fold equals the reference walk |
| StudentForm.ValidClassesKeepFirstOfEach | client/src/pages/AddEditStudentPage.jsx:100-108 | `validClasses` has no empty row, no duplicate class, the first row of each class, in order, and every named class |
| StudentForm.HandleClassChange | client/src/pages/AddEditStudentPage.jsx:78-82 | only the one field of row `index` changes; length and other rows unchanged |
| StudentForm.HandleClassChangeUndo | client/src/pages/AddEditStudentPage.jsx:78-82 | setting the field back restores the rows |
| StudentForm.AddClassField | client/src/pages/AddEditStudentPage.jsx:84-86 | appends exactly one empty row dated today |
| StudentForm.RemoveClassFieldSlices | client/src/pages/AddEditStudentPage.jsx:88-91 | removes exactly row `index`, others kept in order; an index outside the rows removes nothing |
| StudentForm.AddThenRemove | client/src/pages/AddEditStudentPage.jsx:84-91 | adding a row and removing it restores the rows |
| StudentForm.AddedRowNotSubmitted | client/src/pages/AddEditStudentPage.jsx:84-108 | an added row left empty does not change what is submitted |
| StudentForm.LoadSelected | client/src/pages/AddEditStudentPage.jsx:61-69 | every loaded row names a class |
| StudentForm.LoadSelectedDropsNull | client/src/pages/AddEditStudentPage.jsx:61-69 | row k is the k-th enrollment whose class still exists, with its date or ""; with `ReferencedIndices` this is every such enrollment, in order, and no other |
| StudentForm.ReferencedIndices | client/src/pages/AddEditStudentPage.jsx:64 | the positions of the enrollments whose class exists: in range, strictly increasing, and covering every such enrollment |
| AttendanceSheet.MapFromDefined | client/src/pages/AttendancePage.jsx:50-53 | the record's statuses are readable iff every attendee's student exists |
| AttendanceSheet.MapFromKeys | client/src/pages/AttendancePage.jsx:50-53 | the map is keyed by exactly the listed student ids |
| AttendanceSheet.MapFromLastWins | client/src/pages/AttendancePage.jsx:50-53 | a student's status is that of their last entry |
| AttendanceSheet.MapFromNull | client/src/pages/AttendancePage.jsx:52 | a deleted student makes the map unreadable |
| AttendanceSheet.StatusMapFrom | client/src/pages/AttendancePage.jsx:50-53 | the loop computes `MapFrom`, stopping at a deleted student |
| AttendanceSheet.AllPresent | client/src/pages/AttendancePage.jsx:58-61 | exactly the class's students, each Present |
| AttendanceSheet.InitialStatus | client/src/pages/AttendancePage.jsx:58-61 | the loop computes `AllPresent` |
| AttendanceSheet.LoadSheetDefault | client/src/pages/AttendancePage.jsx:48-64 | no record, or one naming a deleted student, gives the all-Present sheet; otherwise the record's statuses |
| AttendanceSheet.HandleStatusChange | client/src/pages/AttendancePage.jsx:76-81 | sets that student's status; every other entry unchanged |
| AttendanceSheet.StatusChangeLastWins | client/src/pages/AttendancePage.jsx:76-81 | the last of two changes wins; changing back restores the sheet |
| AttendanceSheet.BuildAttendees | client/src/pages/AttendancePage.jsx:93-96 | one entry per displayed student, in order, with the sheet's status, or Absent when it has none |
| AttendanceSheet.HandleSave | client/src/pages/AttendancePage.jsx:84-87 | nothing is sent iff the class or the date is not selected |
| AttendanceSheet.HandleSaveSends | client/src/pages/AttendancePage.jsx:93-105 | the request carries the class, the day and the list; the server refuses it iff the class has no students |
| AttendanceSheet.SheetCredits | client/src/pages/AttendancePage.jsx:93-96 | saving credits each displayed student once iff Present on the sheet, nobody else |
| AttendanceSheet.DefaultSheetCreditsEachOnce | client/src/pages/AttendancePage.jsx:58-61 | saving the default sheet credits every student of the class exactly once |
| AttendanceSheet.DefaultSheetForClass | client/src/services/studentService.js:13-19 | for the students the filter picks, the default sheet credits exactly the enrolled students, once each |
| AttendanceSheet.MarkedAbsentNotCredited | client/src/pages/AttendancePage.jsx:76-96 | a student changed to anything but Present is not credited |
| AttendanceSheet.SaveThenLoad | client/src/pages/AttendancePage.jsx:50-96 | saving the sheet and loading the record back shows each student with the status saved |
| StudentService.StudentsByClassId | client/src/services/studentService.js:15-17 | the result is no longer than the list |
| StudentService.EnrolledIff | client/src/services/studentService.js:16 | `some` holds iff an enrollment names the class |
| StudentService.NullNeverMatches | client/src/services/studentService.js:16 | enrollments whose class was deleted never cause a match |
| StudentService.StudentsByClassIdMembers | client/src/services/studentService.js:15-17 | a student is returned iff they are listed and enrolled in the class |
| StudentService.StudentsByClassIdInOrder | client/src/services/studentService.js:15 | the result is an order-preserving subsequence of the list |
| StudentService.StudentsByClassIdDistinct | client/src/services/studentService.js:15 | distinct ids stay distinct in the result |

## Left out

- Time zones. `setHours(0, 0, 0, 0)` works in the server's local time; the model uses UTC days (a floor to 86 400 000 ms).
- The client's date strings. `format(..., 'yyyy-MM-dd')`, `toISOString` and `new Date(selectedDate)` are not modelled; the parsing of the selected date is the parameter `parseDate`.
- Server and storage failures. The 500 answers, `CastError` on malformed ids and database errors thrown midway are not modelled: every write succeeds or fails as a whole. Consequently the model does not capture the partial writes a crash between two awaits would leave.
- Concurrency. Requests are applied one at a time.
- Floating point. Amounts are integers. The `NaN` that `updatePayment` computes when the request has no amount is not modelled; `UpdatePaymentRequest.amount` is required.
- JWT verification. It is an opaque function `verify`; signing, expiry and the secret are not modelled.
- `populate`. It is modelled only as its result: a deleted student or class appears as None.
- The student controller (`createStudent`, `updateStudent` and the others) is not part of this model. Because `updateStudent` uses `findByIdAndUpdate`, which bypasses the pre-save hooks, the debt invariant is proved to be kept by each ledger step rather than made part of `Valid`.
- Read-only list endpoints (`getAll*`, `get*ById`, `getStudentPayments`) and the class, student, auth and user controllers: they do not touch the ledger.
- The email field, its regular expression and its sparse unique index. The other profile fields (`dateOfBirth`, `address`, `notes`) and the attendance record's `recordedBy` are not modelled; they do not touch the ledger.
- Ids. ObjectIds are natural numbers drawn from one counter `nextId`; their time and ordering structure is not modelled.
- Mounting. `server/server.js` mounts the class, student and attendance routers but no payment router, so over HTTP the payment handlers are unreachable. The model still gives them as routes of `Server.Route`, as `server/routes/paymentRoutes.js` declares them.
- The unique `(classId, date)` index is stated on day starts. The server stores every record under the start of its day, so the two coincide for records this code writes.
- React rendering, loading flags, the success and error messages, and navigation in the page components.
- Trimming on updates. `updatePayment`'s `findByIdAndUpdate` is modelled as running the `trim` setters on the fields it sets, as Mongoose's update casting does; the student and class update endpoints are not part of this model.
- StudentForm.LoadSelected: the enrollment date arrives already formatted as `yyyy-MM-dd` or absent; the `toISOString().split('T')[0]` conversion is not modelled.
- AttendanceSheet.HandleSave: `sessionNumber` is never sent by the page and is None; the request is modelled up to the HTTP call, whose answer is not fed back to the page.
- Auth.Protected: `console.log` of the decoded payload is dropped. `User.findById` failing with an exception, rather than returning null, is not modelled.
