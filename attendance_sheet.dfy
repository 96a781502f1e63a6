/** The attendance sheet of the attendance page (client/src/pages/AttendancePage.jsx):
    the status of each displayed student, loaded from an existing record or defaulted
    to Present, edited one student at a time, and turned into the body of
    `POST /api/attendances` on save. */
module AttendanceSheet {
  import opened Common
  import opened Records
  import opened Ledger
  import AC = AttendanceController
  import SS = StudentService

  /** An attendee of a record as `getAttendanceByClassAndDate` returns it: the
      populated student (None once the student no longer exists) and the status. */
  datatype LoadedAttendee = LoadedAttendee(studentId: Option<Id>, status: string)

  /** The status map shown by the page, keyed by student id. */
  type Sheet = map<Id, string>

  predicate Distinct(ids: seq<Id>)
  {
    forall i, j :: 0 <= i < j < |ids| ==> ids[i] != ids[j]
  }

  // ---------------------------------------------------------------------------
  // Loading
  // ---------------------------------------------------------------------------

  /** The map the `forEach` over a loaded record builds: `statusMap[attendee.studentId._id]
      = attendee.status`, later entries overwriting earlier ones. A null student makes
      `._id` throw, which is None. */
  function MapFrom(attendees: seq<LoadedAttendee>): Option<Sheet>
    decreases |attendees|
  {
    if attendees == [] then Some(map[])
    else
      var init, last := attendees[..|attendees| - 1], attendees[|attendees| - 1];
      match MapFrom(init)
      case None => None
      case Some(m) => if last.studentId.None? then None else Some(m[last.studentId.value := last.status])
  }

  /** The record's statuses are readable exactly when every attendee's student exists. */
  lemma {:induction false} MapFromDefined(attendees: seq<LoadedAttendee>)
    ensures MapFrom(attendees).Some? <==> forall i :: 0 <= i < |attendees| ==> attendees[i].studentId.Some?
    decreases |attendees|
  {
    if attendees != [] {
      var init := attendees[..|attendees| - 1];
      MapFromDefined(init);
      assert forall i :: 0 <= i < |init| ==> init[i] == attendees[i];
    }
  }

  /** The map has a key for each listed student and for no one else. */
  lemma {:induction false} MapFromKeys(attendees: seq<LoadedAttendee>)
    requires MapFrom(attendees).Some?
    ensures forall id :: id in MapFrom(attendees).value <==>
              exists i :: 0 <= i < |attendees| && attendees[i].studentId == Some(id)
    decreases |attendees|
  {
    if attendees != [] {
      var init, last := attendees[..|attendees| - 1], attendees[|attendees| - 1];
      MapFromKeys(init);
      var m, m0 := MapFrom(attendees).value, MapFrom(init).value;
      assert m == m0[last.studentId.value := last.status];
      forall id | id in m
        ensures exists i :: 0 <= i < |attendees| && attendees[i].studentId == Some(id)
      {
        if id != last.studentId.value {
          var i :| 0 <= i < |init| && init[i].studentId == Some(id);
          assert attendees[i] == init[i];
        }
      }
      forall i | 0 <= i < |attendees| && attendees[i].studentId.Some?
        ensures attendees[i].studentId.value in m
      {
        if i < |init| {
          assert attendees[i] == init[i];
        }
      }
    }
  }

  /** A student's status is the one of their last entry. */
  lemma {:induction false} MapFromLastWins(attendees: seq<LoadedAttendee>)
    requires MapFrom(attendees).Some?
    ensures forall i :: 0 <= i < |attendees| && (forall j :: i < j < |attendees| ==> attendees[j].studentId != attendees[i].studentId) ==>
              attendees[i].studentId.Some? && attendees[i].studentId.value in MapFrom(attendees).value &&
              MapFrom(attendees).value[attendees[i].studentId.value] == attendees[i].status
    decreases |attendees|
  {
    if attendees != [] {
      var init, last := attendees[..|attendees| - 1], attendees[|attendees| - 1];
      MapFromLastWins(init);
      MapFromKeys(init);
      MapFromDefined(attendees);
      var m, m0 := MapFrom(attendees).value, MapFrom(init).value;
      assert m == m0[last.studentId.value := last.status];
      forall i | 0 <= i < |init| && (forall j :: i < j < |attendees| ==> attendees[j].studentId != attendees[i].studentId)
        ensures attendees[i].studentId.value in m && m[attendees[i].studentId.value] == attendees[i].status
      {
        assert attendees[i] == init[i];
        forall j | i < j < |init|
          ensures init[j].studentId != init[i].studentId
        {
          assert init[j] == attendees[j];
        }
      }
    }
  }

  /** A null student at position `i` makes the whole map undefined. */
  lemma MapFromNull(attendees: seq<LoadedAttendee>, i: nat)
    requires i < |attendees| && attendees[i].studentId.None?
    ensures MapFrom(attendees) == None
  {
    MapFromDefined(attendees);
  }

  /** The `forEach` that fills the status map from the loaded record's attendees. */
  method StatusMapFrom(attendees: seq<LoadedAttendee>) returns (r: Option<Sheet>)
    ensures r == MapFrom(attendees)
  {
    var m: Sheet := map[];
    var i := 0;
    while i < |attendees|
      invariant 0 <= i <= |attendees|
      invariant MapFrom(attendees[..i]) == Some(m)
    {
      var a := attendees[i];
      if a.studentId.None? {
        MapFromNull(attendees, i);
        return None;
      }
      assert attendees[..i + 1][..i] == attendees[..i];
      m := m[a.studentId.value := a.status];
      i := i + 1;
    }
    assert attendees[..i] == attendees;
    r := Some(m);
  }

  /** The default sheet: every student of the class Present. */
  function AllPresent(students: seq<Id>): (m: Sheet)
    ensures forall id :: id in m <==> id in students
    ensures forall id :: id in m ==> m[id] == "Present"
  {
    map id | id in students :: "Present"
  }

  /** The `forEach` that marks every student of the class Present when the day has no record. */
  method InitialStatus(students: seq<Id>) returns (m: Sheet)
    ensures m == AllPresent(students)
  {
    m := map[];
    var i := 0;
    while i < |students|
      invariant 0 <= i <= |students|
      invariant m == AllPresent(students[..i])
    {
      assert students[..i + 1] == students[..i] + [students[i]];
      m := m[students[i] := "Present"];
      i := i + 1;
    }
    assert students[..i] == students;
  }

  /** `fetchStudentsAndAttendance` once the class's students are known: the statuses of
      the day's record when there is one and it can be read, otherwise the default. */
  function LoadSheet(students: seq<Id>, record: Option<seq<LoadedAttendee>>): Sheet
  {
    if record.Some? && MapFrom(record.value).Some? then MapFrom(record.value).value
    else AllPresent(students)
  }

  /** With no record for the day every student starts Present; a record naming a
      student who no longer exists is discarded the same way. */
  lemma LoadSheetDefault(students: seq<Id>, record: Option<seq<LoadedAttendee>>)
    ensures record.None? ==> LoadSheet(students, record) == AllPresent(students)
    ensures record.Some? && (exists i :: 0 <= i < |record.value| && record.value[i].studentId.None?) ==>
              LoadSheet(students, record) == AllPresent(students)
    ensures record.Some? && (forall i :: 0 <= i < |record.value| ==> record.value[i].studentId.Some?) ==>
              MapFrom(record.value).Some? && LoadSheet(students, record) == MapFrom(record.value).value
  {
    if record.Some? {
      MapFromDefined(record.value);
    }
  }

  // ---------------------------------------------------------------------------
  // Editing
  // ---------------------------------------------------------------------------

  /** `handleStatusChange(studentId, status)`: `{ ...prevStatus, [studentId]: status }`. */
  function HandleStatusChange(m: Sheet, studentId: Id, status: string): (r: Sheet)
    ensures r.Keys == m.Keys + {studentId}
    ensures r[studentId] == status
    ensures forall id :: id in m && id != studentId ==> r[id] == m[id]
  {
    m[studentId := status]
  }

  /** Only the last of two changes to one student survives, and changing a status back
      restores the sheet. */
  lemma StatusChangeLastWins(m: Sheet, studentId: Id, s1: string, s2: string)
    ensures HandleStatusChange(HandleStatusChange(m, studentId, s1), studentId, s2) == HandleStatusChange(m, studentId, s2)
    ensures studentId in m ==> HandleStatusChange(HandleStatusChange(m, studentId, s1), studentId, m[studentId]) == m
  {
  }

  // ---------------------------------------------------------------------------
  // Saving
  // ---------------------------------------------------------------------------

  /** `attendanceStatus[student._id] || 'Absent'`: a missing or empty status is Absent. */
  function StatusOf(m: Sheet, studentId: Id): string
  {
    if studentId in m && m[studentId] != "" then m[studentId] else "Absent"
  }

  /** The `students.map(...)` of `handleSaveAttendance`: one entry per displayed
      student, in order, with the sheet's status or Absent. */
  function BuildAttendees(students: seq<Id>, m: Sheet): (r: seq<AttendeeInput>)
    ensures |r| == |students|
    ensures forall i :: 0 <= i < |students| ==>
              r[i].studentId == Some(students[i]) && r[i].note.None? &&
              r[i].status == Some(if students[i] in m && m[students[i]] != "" then m[students[i]] else "Absent")
  {
    seq(|students|, i requires 0 <= i < |students| => AttendeeInput(Some(students[i]), Some(StatusOf(m, students[i])), None))
  }

  /** The outcome of pressing save. */
  datatype SaveOutcome = SelectionMissing | Send(request: AC.RecordAttendanceRequest)

  /** `handleSaveAttendance`: with no class or no date selected it reports an error and
      sends nothing; otherwise it sends the class, the day (as `parseDate` reads the
      selected `yyyy-MM-dd` string) and the attendees. */
  function HandleSave(selectedClass: Option<Id>, selectedDate: string, parseDate: string -> Instant,
                      students: seq<Id>, m: Sheet): (r: SaveOutcome)
    ensures r.SelectionMissing? <==> selectedClass.None? || selectedDate == ""
  {
    if selectedClass.None? || selectedDate == "" then SelectionMissing
    else Send(AC.RecordAttendanceRequest(selectedClass, Some(parseDate(selectedDate)), None,
                                         Some(BuildAttendees(students, m))))
  }

  /** What is sent names the selected class and day and lists the sheet; a class
      without students sends an empty list, which the server refuses as a missing field. */
  lemma HandleSaveSends(selectedClass: Option<Id>, selectedDate: string, parseDate: string -> Instant,
                        students: seq<Id>, m: Sheet)
    requires selectedClass.Some? && selectedDate != ""
    ensures var r := HandleSave(selectedClass, selectedDate, parseDate, students, m);
      r.Send? && r.request.classId == selectedClass && r.request.date == Some(parseDate(selectedDate)) &&
      r.request.attendees == Some(BuildAttendees(students, m)) &&
      (AC.MissingRequired(r.request) <==> students == [])
  {
  }

  // ---------------------------------------------------------------------------
  // The sheet and the server
  // ---------------------------------------------------------------------------

  lemma CreditTargetsSnoc(xs: seq<AttendeeInput>, x: AttendeeInput)
    ensures AC.CreditTargets(xs + [x]) == AC.CreditTargets(xs) + [AC.CreditTarget(x)]
  {
  }

  lemma OccurrencesSnoc(t: seq<Option<Id>>, x: Option<Id>, id: Id)
    ensures Occurrences(t + [x], id) == Occurrences(t, id) + if x == Some(id) then 1 else 0
  {
    assert (t + [x])[..|t|] == t;
  }

  lemma BuildAttendeesSnoc(students: seq<Id>, m: Sheet)
    requires students != []
    ensures BuildAttendees(students, m) ==
            BuildAttendees(students[..|students| - 1], m) +
            [AttendeeInput(Some(students[|students| - 1]), Some(StatusOf(m, students[|students| - 1])), None)]
  {
  }

  /** Appending a student to the sheet adds one credit when they are Present. */
  lemma SheetCreditsSnoc(students: seq<Id>, m: Sheet, id: Id)
    requires students != []
    ensures var last := students[|students| - 1];
      AC.PresentCount(BuildAttendees(students, m), id) ==
      AC.PresentCount(BuildAttendees(students[..|students| - 1], m), id) +
      if last == id && StatusOf(m, id) == "Present" then 1 else 0
  {
    var init, last := students[..|students| - 1], students[|students| - 1];
    var entry := AttendeeInput(Some(last), Some(StatusOf(m, last)), None);
    BuildAttendeesSnoc(students, m);
    CreditTargetsSnoc(BuildAttendees(init, m), entry);
    OccurrencesSnoc(AC.CreditTargets(BuildAttendees(init, m)), AC.CreditTarget(entry), id);
  }

  /** Saving the sheet credits each displayed student once when their status is
      Present and never otherwise; nobody else is credited. */
  lemma {:induction false} SheetCredits(students: seq<Id>, m: Sheet, id: Id)
    requires Distinct(students)
    ensures AC.PresentCount(BuildAttendees(students, m), id) ==
            if id in students && StatusOf(m, id) == "Present" then 1 else 0
    decreases |students|
  {
    if students != [] {
      var init, last := students[..|students| - 1], students[|students| - 1];
      assert students == init + [last];
      assert Distinct(init);
      SheetCredits(init, m, id);
      SheetCreditsSnoc(students, m, id);
      if id == last {
        assert id !in init;
      }
    }
  }

  /** Saving the default sheet credits every student of the class exactly once. */
  lemma DefaultSheetCreditsEachOnce(students: seq<Id>, id: Id)
    requires Distinct(students)
    ensures AC.PresentCount(BuildAttendees(students, AllPresent(students)), id) == if id in students then 1 else 0
  {
    SheetCredits(students, AllPresent(students), id);
  }

  /** Saving the default sheet of a class, whose students `getStudentsByClassId` picks
      out of a listing without repeated ids, credits each student enrolled in the class
      exactly once and nobody else. */
  lemma DefaultSheetForClass(all: seq<SS.ListedStudent>, classId: Id, id: Id)
    requires SS.DistinctIds(all)
    ensures var students := SS.StudentIds(SS.StudentsByClassId(all, classId));
      AC.PresentCount(BuildAttendees(students, AllPresent(students)), id) ==
      if exists s :: s in all && s.id == id && SS.Enrolled(s.classes, classId) then 1 else 0
  {
    var picked := SS.StudentsByClassId(all, classId);
    var students := SS.StudentIds(picked);
    SS.StudentsByClassIdDistinct(all, classId);
    SS.StudentsByClassIdMembers(all, classId);
    DefaultSheetCreditsEachOnce(students, id);
    if id in students {
      var i :| 0 <= i < |students| && students[i] == id;
      assert picked[i] in picked;
    }
    if exists s :: s in all && s.id == id && SS.Enrolled(s.classes, classId) {
      var s :| s in all && s.id == id && SS.Enrolled(s.classes, classId);
      var i :| 0 <= i < |picked| && picked[i] == s;
      assert students[i] == id;
    }
  }

  /** A student marked anything but Present is not credited. */
  lemma MarkedAbsentNotCredited(students: seq<Id>, m: Sheet, id: Id, status: string)
    requires Distinct(students) && status != "Present"
    ensures AC.PresentCount(BuildAttendees(students, HandleStatusChange(m, id, status)), id) == 0
  {
    SheetCredits(students, HandleStatusChange(m, id, status), id);
  }

  /** A stored record as it comes back when every attendee's student still exists. */
  function Populated(stored: seq<Attendee>): (r: seq<LoadedAttendee>)
  {
    seq(|stored|, i requires 0 <= i < |stored| => LoadedAttendee(Some(stored[i].studentId), StatusName(stored[i].status)))
  }

  /** Saving the sheet and loading the record back shows every student of the class
      with the status that was saved (Absent where the sheet had none). */
  lemma SaveThenLoad(students: seq<Id>, m: Sheet, stored: seq<Attendee>)
    requires Distinct(students)
    requires ToAttendees(BuildAttendees(students, m)) == Some(stored)
    ensures MapFrom(Populated(stored)).Some?
    ensures forall id :: id in MapFrom(Populated(stored)).value <==> id in students
    ensures forall id :: id in students ==> MapFrom(Populated(stored)).value[id] == StatusOf(m, id)
  {
    var entries, loaded := BuildAttendees(students, m), Populated(stored);
    assert forall i :: 0 <= i < |loaded| ==> loaded[i].studentId == Some(students[i]) && loaded[i].status == StatusOf(m, students[i]) by {
      forall i | 0 <= i < |loaded|
        ensures loaded[i].studentId == Some(students[i]) && loaded[i].status == StatusOf(m, students[i])
      {
        assert ToAttendee(entries[i]) == Some(stored[i]);
      }
    }
    MapFromDefined(loaded);
    MapFromKeys(loaded);
    MapFromLastWins(loaded);
    forall id | id in students
      ensures id in MapFrom(loaded).value && MapFrom(loaded).value[id] == StatusOf(m, id)
    {
      var i :| 0 <= i < |students| && students[i] == id;
      assert loaded[i].studentId == Some(id);
    }
    forall id | id in MapFrom(loaded).value
      ensures id in students
    {
      var i :| 0 <= i < |loaded| && loaded[i].studentId == Some(id);
    }
  }
}
