/** The class list of the student form (client/src/pages/AddEditStudentPage.jsx):
    the rows loaded from a stored student, the row edits, and the list sent on
    submit, which drops empty rows and keeps the first row of each class. A row's
    class is None while the select shows its empty placeholder (the string ''). */
module StudentForm {
  import opened Common

  /** One row of `selectedClasses`. */
  datatype ClassField = ClassField(classId: Option<Id>, enrollmentDate: string)

  /** An enrollment as the server returns it: the populated class (null when the
      class no longer exists) and the formatted enrollment date, if any. */
  datatype LoadedEnrollment = LoadedEnrollment(classId: Option<Id>, enrollmentDate: Option<string>)

  /** The class ids the rows name. */
  function IdsOf(fields: seq<ClassField>): (ids: set<Id>)
    ensures forall i :: 0 <= i < |fields| && fields[i].classId.Some? ==> fields[i].classId.value in ids
    ensures forall id :: id in ids ==> exists i :: 0 <= i < |fields| && fields[i].classId == Some(id)
  {
    set i | 0 <= i < |fields| && fields[i].classId.Some? :: fields[i].classId.value
  }

  // ---------------------------------------------------------------------------
  // validClasses in handleSubmit
  // ---------------------------------------------------------------------------

  /** `.filter(cls => cls.classId)`. */
  function Filled(fields: seq<ClassField>): (r: seq<ClassField>)
    ensures forall k :: 0 <= k < |r| ==> r[k].classId.Some?
    decreases |fields|
  {
    if fields == [] then []
    else if fields[0].classId.None? then Filled(fields[1..])
    else [fields[0]] + Filled(fields[1..])
  }

  /** `acc.find(item => item.classId === id)`. */
  function Find(acc: seq<ClassField>, id: Option<Id>): (r: Option<ClassField>)
    ensures r.Some? <==> exists k :: 0 <= k < |acc| && acc[k].classId == id
    ensures r.Some? ==> r.value.classId == id
    decreases |acc|
  {
    if acc == [] then None
    else if acc[0].classId == id then Some(acc[0])
    else
      var r := Find(acc[1..], id);
      assert forall k :: 1 <= k < |acc| ==> acc[k] == acc[1..][k - 1];
      r
  }

  /** `.reduce((acc, current) => acc.find(...) ? acc : acc.concat([current]), acc)`. */
  function Dedupe(acc: seq<ClassField>, rest: seq<ClassField>): seq<ClassField>
    decreases |rest|
  {
    if rest == [] then acc
    else Dedupe(if Find(acc, rest[0].classId).Some? then acc else acc + [rest[0]], rest[1..])
  }

  /** The class list sent on submit. */
  function ValidClasses(fields: seq<ClassField>): seq<ClassField>
  {
    Dedupe([], Filled(fields))
  }

  /** Reference definition: walking the rows in order, a row is kept when it names a
      class and no earlier row names the same class. */
  function Kept(fields: seq<ClassField>): seq<ClassField>
    decreases |fields|
  {
    if fields == [] then []
    else
      var init, last := fields[..|fields| - 1], fields[|fields| - 1];
      Kept(init) + (if last.classId.None? || last.classId.value in IdsOf(init) then [] else [last])
  }

  /** The first row that names class `id`. */
  function FirstIndex(fields: seq<ClassField>, id: Id): (i: nat)
    requires id in IdsOf(fields)
    ensures i < |fields| && fields[i].classId == Some(id)
    ensures forall j :: 0 <= j < i ==> fields[j].classId != Some(id)
    decreases |fields|
  {
    if fields[0].classId == Some(id) then 0
    else
      assert id in IdsOf(fields[1..]) by {
        var i :| 0 <= i < |fields| && fields[i].classId == Some(id);
        assert fields[1..][i - 1] == fields[i];
      }
      var i := 1 + FirstIndex(fields[1..], id);
      assert forall j :: 1 <= j < |fields| ==> fields[j] == fields[1..][j - 1];
      i
  }

  lemma IdsOfSnoc(fields: seq<ClassField>, last: ClassField)
    ensures IdsOf(fields + [last]) == IdsOf(fields) + (if last.classId.Some? then {last.classId.value} else {})
  {
    var xs := fields + [last];
    forall id | id in IdsOf(xs)
      ensures id in IdsOf(fields) || last.classId == Some(id)
    {
      var i :| 0 <= i < |xs| && xs[i].classId == Some(id);
      if i < |fields| {
        assert fields[i] == xs[i];
      }
    }
    forall id | id in IdsOf(fields)
      ensures id in IdsOf(xs)
    {
      var i :| 0 <= i < |fields| && fields[i].classId == Some(id);
      assert xs[i] == fields[i];
    }
    if last.classId.Some? {
      assert xs[|fields|] == last;
    }
  }

  /** Appending a row does not move the first row of a class already named. */
  lemma FirstIndexSnoc(fields: seq<ClassField>, last: ClassField, id: Id)
    requires id in IdsOf(fields)
    ensures id in IdsOf(fields + [last]) && FirstIndex(fields + [last], id) == FirstIndex(fields, id)
  {
    IdsOfSnoc(fields, last);
    var xs := fields + [last];
    var i, j := FirstIndex(fields, id), FirstIndex(xs, id);
    assert xs[i] == fields[i];
    assert j <= i;
    assert fields[j] == xs[j];
  }

  /** A row naming a class no earlier row names is that class's first row. */
  lemma FirstIndexNew(fields: seq<ClassField>, last: ClassField)
    requires last.classId.Some? && last.classId.value !in IdsOf(fields)
    ensures last.classId.value in IdsOf(fields + [last])
    ensures FirstIndex(fields + [last], last.classId.value) == |fields|
  {
    var xs, id := fields + [last], last.classId.value;
    IdsOfSnoc(fields, last);
    forall j | 0 <= j < |fields|
      ensures xs[j].classId != Some(id)
    {
      assert xs[j] == fields[j];
    }
  }

  /** The reference walk keeps a row exactly when it names a new class. */
  lemma KeptSnoc(init: seq<ClassField>, last: ClassField)
    ensures Kept(init + [last]) ==
            if last.classId.None? || last.classId.value in IdsOf(init) then Kept(init) else Kept(init) + [last]
  {
    var xs := init + [last];
    assert xs[..|xs| - 1] == init && xs[|xs| - 1] == last;
    assert Kept(init) + [] == Kept(init);
  }

  /** The kept rows name exactly the classes the rows name. */
  lemma {:induction false} KeptIds(fields: seq<ClassField>)
    ensures IdsOf(Kept(fields)) == IdsOf(fields)
    decreases |fields|
  {
    if fields != [] {
      var init, last := fields[..|fields| - 1], fields[|fields| - 1];
      assert init + [last] == fields;
      KeptIds(init);
      KeptSnoc(init, last);
      IdsOfSnoc(init, last);
      if last.classId.Some? && last.classId.value !in IdsOf(init) {
        IdsOfSnoc(Kept(init), last);
      }
    }
  }

  /** Every kept row names a class, and no two kept rows name the same class. */
  lemma {:induction false} KeptDistinct(fields: seq<ClassField>)
    ensures forall k :: 0 <= k < |Kept(fields)| ==> Kept(fields)[k].classId.Some?
    ensures forall k, l :: 0 <= k < l < |Kept(fields)| ==> Kept(fields)[k].classId != Kept(fields)[l].classId
    decreases |fields|
  {
    if fields != [] {
      var init, last := fields[..|fields| - 1], fields[|fields| - 1];
      assert init + [last] == fields;
      KeptDistinct(init);
      KeptSnoc(init, last);
      if last.classId.Some? && last.classId.value !in IdsOf(init) {
        KeptIds(init);
        var r0 := Kept(init);
        forall k | 0 <= k < |r0|
          ensures r0[k].classId != last.classId
        {
          assert r0[k].classId.value in IdsOf(r0);
        }
      }
    }
  }

  /** Each kept row is the first row naming its class. */
  ghost predicate FirstRows(fields: seq<ClassField>, r: seq<ClassField>)
  {
    forall k :: 0 <= k < |r| ==>
      r[k].classId.Some? && r[k].classId.value in IdsOf(fields) && r[k] == fields[FirstIndex(fields, r[k].classId.value)]
  }

  /** The kept rows appear in the order of their first rows. */
  ghost predicate InRowOrder(fields: seq<ClassField>, r: seq<ClassField>)
    requires FirstRows(fields, r)
  {
    forall k, l :: 0 <= k < l < |r| ==>
      FirstIndex(fields, r[k].classId.value) < FirstIndex(fields, r[l].classId.value)
  }

  lemma {:induction false} KeptFirstRows(fields: seq<ClassField>)
    ensures FirstRows(fields, Kept(fields))
    decreases |fields|
  {
    if fields != [] {
      var init, last := fields[..|fields| - 1], fields[|fields| - 1];
      assert init + [last] == fields;
      KeptFirstRows(init);
      KeptSnoc(init, last);
      var r0 := Kept(init);
      forall k | 0 <= k < |r0|
        ensures r0[k].classId.value in IdsOf(fields)
        ensures r0[k] == fields[FirstIndex(fields, r0[k].classId.value)]
      {
        KeptFirstRowsOld(init, last, r0[k]);
      }
      if last.classId.Some? && last.classId.value !in IdsOf(init) {
        FirstIndexNew(init, last);
        assert fields[|init|] == last;
      }
    }
  }

  /** A first row stays the first row when a row is appended. */
  lemma KeptFirstRowsOld(init: seq<ClassField>, last: ClassField, row: ClassField)
    requires row.classId.Some? && row.classId.value in IdsOf(init)
    requires row == init[FirstIndex(init, row.classId.value)]
    ensures row.classId.value in IdsOf(init + [last])
    ensures row == (init + [last])[FirstIndex(init + [last], row.classId.value)]
  {
    FirstIndexSnoc(init, last, row.classId.value);
  }

  lemma {:induction false} KeptInRowOrder(fields: seq<ClassField>)
    ensures FirstRows(fields, Kept(fields)) && InRowOrder(fields, Kept(fields))
    decreases |fields|
  {
    KeptFirstRows(fields);
    if fields != [] {
      var init, last := fields[..|fields| - 1], fields[|fields| - 1];
      assert init + [last] == fields;
      KeptInRowOrder(init);
      KeptSnoc(init, last);
      var r0 := Kept(init);
      forall k | 0 <= k < |r0|
        ensures FirstIndex(fields, r0[k].classId.value) == FirstIndex(init, r0[k].classId.value)
      {
        FirstIndexSnoc(init, last, r0[k].classId.value);
      }
      if last.classId.Some? && last.classId.value !in IdsOf(init) {
        FirstIndexNew(init, last);
      }
    }
  }

  lemma FindById(acc: seq<ClassField>, id: Id)
    ensures Find(acc, Some(id)).Some? <==> id in IdsOf(acc)
  {
    if id in IdsOf(acc) {
      var i :| 0 <= i < |acc| && acc[i].classId == Some(id);
    }
  }

  /** One step of the fold agrees with one step of the reference walk. */
  lemma {:induction false} DedupeKept(p: seq<ClassField>, s: seq<ClassField>)
    ensures Dedupe(Kept(p), Filled(s)) == Kept(p + s)
    decreases |s|
  {
    if s == [] {
      assert p + s == p;
    } else {
      var head, tail := s[0], s[1..];
      var p' := p + [head];
      assert p + s == p' + tail;
      assert p'[..|p'| - 1] == p && p'[|p'| - 1] == head;
      DedupeKept(p', tail);
      KeptSnoc(p, head);
      if head.classId.None? {
        assert Filled(s) == Filled(tail);
      } else {
        assert Filled(s) == [head] + Filled(tail);
        KeptIds(p);
        FindById(Kept(p), head.classId.value);
      }
    }
  }

  /** The fold `validClasses` computes is the reference walk, so it keeps the first
      row of each class, drops empty rows and duplicates, and keeps the order. */
  lemma ValidClassesKeepFirstOfEach(fields: seq<ClassField>)
    ensures ValidClasses(fields) == Kept(fields)
    ensures IdsOf(ValidClasses(fields)) == IdsOf(fields)
    ensures FirstRows(fields, ValidClasses(fields)) && InRowOrder(fields, ValidClasses(fields))
    ensures forall k, l :: 0 <= k < l < |ValidClasses(fields)| ==>
              ValidClasses(fields)[k].classId != ValidClasses(fields)[l].classId
  {
    DedupeKept([], fields);
    assert [] + fields == fields;
    KeptIds(fields);
    KeptDistinct(fields);
    KeptInRowOrder(fields);
  }

  // ---------------------------------------------------------------------------
  // Row edits
  // ---------------------------------------------------------------------------

  /** The two fields a row's inputs edit. */
  datatype Edit = SetClass(classId: Option<Id>) | SetEnrollmentDate(date: string)

  /** `handleClassChange(index, field, value)`: a copy of the rows with one field of
      row `index` replaced. */
  function HandleClassChange(fields: seq<ClassField>, index: nat, edit: Edit): (r: seq<ClassField>)
    requires index < |fields|
    ensures |r| == |fields|
    ensures forall i :: 0 <= i < |fields| && i != index ==> r[i] == fields[i]
    ensures edit.SetClass? ==> r[index] == fields[index].(classId := edit.classId)
    ensures edit.SetEnrollmentDate? ==> r[index] == fields[index].(enrollmentDate := edit.date)
  {
    var row := fields[index];
    fields[index := match edit
                    case SetClass(c) => row.(classId := c)
                    case SetEnrollmentDate(d) => row.(enrollmentDate := d)]
  }

  /** Setting a field back to its previous value restores the rows. */
  lemma HandleClassChangeUndo(fields: seq<ClassField>, index: nat, edit: Edit)
    requires index < |fields|
    ensures var undo := if edit.SetClass? then SetClass(fields[index].classId)
                        else SetEnrollmentDate(fields[index].enrollmentDate);
      HandleClassChange(HandleClassChange(fields, index, edit), index, undo) == fields
  {
  }

  /** `addClassField`: one empty row dated today. */
  function AddClassField(fields: seq<ClassField>, today: string): (r: seq<ClassField>)
    ensures |r| == |fields| + 1 && r[..|fields|] == fields
    ensures r[|fields|] == ClassField(None, today)
  {
    fields + [ClassField(None, today)]
  }

  /** `removeClassField(index)`: `filter((_, i) => i !== index)`. */
  function RemoveClassField(fields: seq<ClassField>, index: int): (r: seq<ClassField>)
    decreases |fields|
  {
    if fields == [] then []
    else RemoveClassField(fields[..|fields| - 1], index) + (if index == |fields| - 1 then [] else [fields[|fields| - 1]])
  }

  /** Removing drops exactly row `index` and keeps the others in order; an index
      outside the rows removes nothing. */
  lemma {:induction false} RemoveClassFieldSlices(fields: seq<ClassField>, index: int)
    ensures 0 <= index < |fields| ==> RemoveClassField(fields, index) == fields[..index] + fields[index + 1..]
    ensures !(0 <= index < |fields|) ==> RemoveClassField(fields, index) == fields
    decreases |fields|
  {
    if fields != [] {
      var init, last := fields[..|fields| - 1], fields[|fields| - 1];
      RemoveClassFieldSlices(init, index);
      if index == |fields| - 1 {
        assert init == fields[..index] + fields[index + 1..];
      } else if 0 <= index < |init| {
        assert fields[..index] + fields[index + 1..] == init[..index] + init[index + 1..] + [last];
      } else {
        assert init + [last] == fields;
      }
    }
  }

  /** Adding a row and removing it again restores the rows. */
  lemma AddThenRemove(fields: seq<ClassField>, today: string)
    ensures RemoveClassField(AddClassField(fields, today), |fields|) == fields
  {
    RemoveClassFieldSlices(AddClassField(fields, today), |fields|);
  }

  /** An added row left empty is not submitted. */
  lemma AddedRowNotSubmitted(fields: seq<ClassField>, today: string)
    ensures ValidClasses(AddClassField(fields, today)) == ValidClasses(fields)
  {
    ValidClassesKeepFirstOfEach(fields);
    ValidClassesKeepFirstOfEach(AddClassField(fields, today));
    assert AddClassField(fields, today)[..|fields|] == fields;
  }

  // ---------------------------------------------------------------------------
  // Loading a stored student
  // ---------------------------------------------------------------------------

  /** `classes.filter(c => c.classId).map(c => ({ classId, enrollmentDate || '' }))`,
      applied only when the student has classes (otherwise the rows stay empty). */
  function LoadSelected(enrollments: seq<LoadedEnrollment>): (r: seq<ClassField>)
    ensures forall k :: 0 <= k < |r| ==> r[k].classId.Some?
    decreases |enrollments|
  {
    if enrollments == [] then []
    else
      var init, last := enrollments[..|enrollments| - 1], enrollments[|enrollments| - 1];
      LoadSelected(init) + (if last.classId.None? then [] else [RowOf(last)])
  }

  /** The row one loaded enrollment becomes: its class and its date, or "" for none. */
  function RowOf(e: LoadedEnrollment): ClassField
  {
    ClassField(e.classId, if e.enrollmentDate.Some? then e.enrollmentDate.value else "")
  }

  /** The positions of the enrollments that still reference a class, in increasing
      order: every such position occurs, and no other. */
  function ReferencedIndices(enrollments: seq<LoadedEnrollment>): (idx: seq<nat>)
    ensures forall k :: 0 <= k < |idx| ==> idx[k] < |enrollments| && enrollments[idx[k]].classId.Some?
    ensures forall k, l :: 0 <= k < l < |idx| ==> idx[k] < idx[l]
    ensures forall i :: 0 <= i < |enrollments| && enrollments[i].classId.Some? ==> i in idx
    decreases |enrollments|
  {
    if enrollments == [] then []
    else
      var n := |enrollments| - 1;
      var init := enrollments[..n];
      assert forall i :: 0 <= i < n ==> init[i] == enrollments[i];
      ReferencedIndices(init) + (if enrollments[n].classId.Some? then [n] else [])
  }

  /** Row k is the k-th enrollment whose class still exists, with its date: the rows
      are exactly those enrollments, in their order, and nothing else. */
  lemma {:induction false} LoadSelectedDropsNull(enrollments: seq<LoadedEnrollment>)
    ensures |LoadSelected(enrollments)| == |ReferencedIndices(enrollments)|
    ensures forall k :: 0 <= k < |LoadSelected(enrollments)| ==>
              LoadSelected(enrollments)[k] == RowOf(enrollments[ReferencedIndices(enrollments)[k]])
    decreases |enrollments|
  {
    if enrollments != [] {
      var n := |enrollments| - 1;
      var init := enrollments[..n];
      LoadSelectedDropsNull(init);
      var r, r0 := LoadSelected(enrollments), LoadSelected(init);
      var idx, idx0 := ReferencedIndices(enrollments), ReferencedIndices(init);
      forall k | 0 <= k < |r0|
        ensures r[k] == RowOf(enrollments[idx[k]])
      {
        assert r[k] == r0[k] && idx[k] == idx0[k];
        assert init[idx0[k]] == enrollments[idx0[k]];
      }
    }
  }
}
