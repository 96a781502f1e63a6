/** `getStudentsByClassId` (client/src/services/studentService.js): the students of
    one class, picked on the client out of the full student list. */
module StudentService {
  import opened Common

  /** A student as `GET /api/students` lists them: the id and, for each enrollment,
      the populated class id (None once the class no longer exists). */
  datatype ListedStudent = ListedStudent(id: Id, classes: seq<Option<Id>>)

  /** `student.classes.some(c => c.classId && c.classId._id === classId)`. */
  function Enrolled(classes: seq<Option<Id>>, classId: Id): bool
    decreases |classes|
  {
    classes != [] && ((classes[0].Some? && classes[0].value == classId) || Enrolled(classes[1..], classId))
  }

  /** The `filter` over the whole list. */
  function StudentsByClassId(all: seq<ListedStudent>, classId: Id): (r: seq<ListedStudent>)
    ensures |r| <= |all|
    decreases |all|
  {
    if all == [] then []
    else if Enrolled(all[0].classes, classId) then [all[0]] + StudentsByClassId(all[1..], classId)
    else StudentsByClassId(all[1..], classId)
  }

  /** A student is enrolled exactly when one of their enrollments names the class. */
  lemma {:induction false} EnrolledIff(classes: seq<Option<Id>>, classId: Id)
    ensures Enrolled(classes, classId) <==> exists k :: 0 <= k < |classes| && classes[k] == Some(classId)
    decreases |classes|
  {
    if classes != [] {
      EnrolledIff(classes[1..], classId);
      assert forall k :: 1 <= k < |classes| ==> classes[k] == classes[1..][k - 1];
      if exists k :: 0 <= k < |classes| && classes[k] == Some(classId) {
        var k :| 0 <= k < |classes| && classes[k] == Some(classId);
        if k > 0 {
          assert classes[1..][k - 1] == Some(classId);
        }
      }
    }
  }

  /** Enrollments whose class no longer exists never make a student match: removing
      them does not change the answer. */
  lemma NullNeverMatches(classes: seq<Option<Id>>, classId: Id)
    ensures Enrolled(classes, classId) == Enrolled(Existing(classes), classId)
  {
    EnrolledIff(classes, classId);
    EnrolledIff(Existing(classes), classId);
    ExistingMembers(classes);
  }

  /** The enrollments that still reference a class. */
  function Existing(classes: seq<Option<Id>>): seq<Option<Id>>
    decreases |classes|
  {
    if classes == [] then []
    else (if classes[0].Some? then [classes[0]] else []) + Existing(classes[1..])
  }

  lemma {:induction false} ExistingMembers(classes: seq<Option<Id>>)
    ensures forall c :: c in Existing(classes) <==> c in classes && c.Some?
    decreases |classes|
  {
    if classes != [] {
      ExistingMembers(classes[1..]);
      assert classes == [classes[0]] + classes[1..];
    }
  }

  /** Every returned student is enrolled in the class, and every enrolled student of
      the list is returned. */
  lemma {:induction false} StudentsByClassIdMembers(all: seq<ListedStudent>, classId: Id)
    ensures forall s :: s in StudentsByClassId(all, classId) <==> s in all && Enrolled(s.classes, classId)
    decreases |all|
  {
    if all != [] {
      StudentsByClassIdMembers(all[1..], classId);
      assert all == [all[0]] + all[1..];
    }
  }

  /** `xs` is `ys` with some elements left out, the rest in their order. */
  predicate SubsequenceOf(xs: seq<ListedStudent>, ys: seq<ListedStudent>)
    decreases |ys|
  {
    if xs == [] then true
    else if ys == [] then false
    else (xs[0] == ys[0] && SubsequenceOf(xs[1..], ys[1..])) || SubsequenceOf(xs, ys[1..])
  }

  /** The result keeps the order of the full list. */
  lemma {:induction false} StudentsByClassIdInOrder(all: seq<ListedStudent>, classId: Id)
    ensures SubsequenceOf(StudentsByClassId(all, classId), all)
    decreases |all|
  {
    if all != [] {
      StudentsByClassIdInOrder(all[1..], classId);
      var r := StudentsByClassId(all, classId);
      if Enrolled(all[0].classes, classId) {
        assert r[0] == all[0] && r[1..] == StudentsByClassId(all[1..], classId);
      }
    }
  }

  /** No two students of the list share an id. */
  predicate DistinctIds(xs: seq<ListedStudent>)
  {
    forall i, j :: 0 <= i < j < |xs| ==> xs[i].id != xs[j].id
  }

  /** Students with distinct ids stay distinct in the result. */
  lemma {:induction false} StudentsByClassIdDistinct(all: seq<ListedStudent>, classId: Id)
    requires DistinctIds(all)
    ensures DistinctIds(StudentsByClassId(all, classId))
    decreases |all|
  {
    if all != [] && Enrolled(all[0].classes, classId) {
      var tail := StudentsByClassId(all[1..], classId);
      StudentsByClassIdDistinct(all[1..], classId);
      StudentsByClassIdMembers(all[1..], classId);
      forall j | 0 <= j < |tail|
        ensures tail[j].id != all[0].id
      {
        assert tail[j] in all[1..];
        var k :| 0 <= k < |all[1..]| && all[1..][k] == tail[j];
        assert all[k + 1] == tail[j];
      }
      var r := [all[0]] + tail;
      forall i, j | 0 <= i < j < |r|
        ensures r[i].id != r[j].id
      {
        if i == 0 {
          assert r[j] == tail[j - 1];
        } else {
          assert r[i] == tail[i - 1] && r[j] == tail[j - 1];
        }
      }
    } else if all != [] {
      StudentsByClassIdDistinct(all[1..], classId);
    }
  }

  /** The ids of listed students, in order (`student._id`). */
  function StudentIds(xs: seq<ListedStudent>): (r: seq<Id>)
    ensures |r| == |xs| && forall i :: 0 <= i < |xs| ==> r[i] == xs[i].id
  {
    seq(|xs|, i requires 0 <= i < |xs| => xs[i].id)
  }
}
