/** Student records: add, list, the edit form, the version-checked edit and
    delete. Every handler but the list sits behind the admin gate, for the
    form (GET) as much as for the submission (POST). */
module Students {
  import opened Wrappers
  import opened Schema
  import opened Database
  import opened Responses
  import opened Auth

  /** The add form, behind the gate. */
  function AddForm(t: Tables, s: Session): (r: Step)
    ensures r.tables == t && r.session == s
    ensures r.outcome == AddFormShown <==> s.role == Some(AdminRole)
    ensures r.outcome != AddFormShown ==> r.outcome == AdminAccessRequired
  {
    AdminRequired(t, s, (t0: Tables, s0: Session) => Step(t0, s0, AddFormShown))
  }

  /** The submitted add form: inserts `id` (generated by the caller) with the
      form's fields and the default version, then reports success whether or
      not the insert went through (it fails on an engine error or an `id`
      already in the table). */
  function AddStudent(t: Tables, s: Session, id: string, f: StudentFields, fault: bool): (r: Step)
    ensures r.session == s
    ensures s.role != Some(AdminRole) ==> r.tables == t && r.outcome == AdminAccessRequired
    ensures s.role == Some(AdminRole) ==> r.outcome == StudentAdded
    ensures s.role == Some(AdminRole) && (fault || id in t.students) ==> r.tables == t
    ensures s.role == Some(AdminRole) && !fault && id !in t.students ==>
      && r.tables.students.Keys == t.students.Keys + {id}
      && r.tables.students[id] == Student(f, InitialVersion)
      && AgreeExcept(t.students, r.tables.students, id)
      && r.tables.(students := t.students) == t
  {
    AdminRequired(t, s, (t0: Tables, s0: Session) =>
      var w := InsertStudentRow(t0, id, f, fault);
      Step(w.tables, s0, StudentAdded))
  }

  /** The student list, open to every session, logged in or not; it changes nothing. */
  function ViewStudents(t: Tables, s: Session): (r: Step)
    ensures r.tables == t && r.session == s
    ensures r.outcome.StudentsShown?
    ensures forall id :: id in r.outcome.students <==> id in t.students
    ensures forall id :: id in t.students ==> r.outcome.students[id] == t.students[id]
  {
    Step(t, s, StudentsShown(t.students))
  }

  /** The edit form, behind the gate: the stored record with its current
      version, or a not-found answer. */
  function EditForm(t: Tables, s: Session, id: string): (r: Step)
    ensures r.tables == t && r.session == s
    ensures s.role != Some(AdminRole) ==> r.outcome == AdminAccessRequired
    ensures s.role == Some(AdminRole) && id in t.students ==> r.outcome == EditFormShown(id, t.students[id])
    ensures s.role == Some(AdminRole) && id !in t.students ==> r.outcome == StudentNotFound
  {
    AdminRequired(t, s, (t0: Tables, s0: Session) =>
      var rows := SelectStudent(t0, id);
      if |rows| == 0 then Step(t0, s0, StudentNotFound)
      else Step(t0, s0, EditFormShown(id, rows[0])))
  }

  /** The submitted edit form, carrying the version the editor read. The row
      is rewritten only when its stored version still equals that version, and
      its version then rises by one. Only an update that matched no row is
      reported as a concurrent modification, so an update the engine rejected
      (`None`) is reported as a success. */
  function EditStudent(t: Tables, s: Session, id: string, f: StudentFields, version: int, fault: bool): (r: Step)
    ensures r.session == s
    ensures s.role != Some(AdminRole) ==> r.tables == t && r.outcome == AdminAccessRequired
    ensures s.role == Some(AdminRole) && !fault && id in t.students && t.students[id].version == version ==>
      && r.outcome == StudentUpdated
      && r.tables.students.Keys == t.students.Keys
      && r.tables.students[id] == Student(f, version + 1)
      && AgreeExcept(t.students, r.tables.students, id)
      && r.tables.(students := t.students) == t
    ensures s.role == Some(AdminRole) && !fault && !(id in t.students && t.students[id].version == version) ==>
      r.tables == t && r.outcome == ConcurrentModification
    ensures s.role == Some(AdminRole) && fault ==> r.tables == t && r.outcome == StudentUpdated
  {
    AdminRequired(t, s, (t0: Tables, s0: Session) =>
      var w := UpdateStudentRow(t0, id, f, version, fault);
      if w.affected == Some(0) then Step(w.tables, s0, ConcurrentModification)
      else Step(w.tables, s0, StudentUpdated))
  }

  /** The delete button, behind the gate: removes the row with `id`, if any,
      and reports success whatever the delete returned. */
  function DeleteStudent(t: Tables, s: Session, id: string, fault: bool): (r: Step)
    ensures r.session == s
    ensures s.role != Some(AdminRole) ==> r.tables == t && r.outcome == AdminAccessRequired
    ensures s.role == Some(AdminRole) ==> r.outcome == StudentDeleted
    ensures s.role == Some(AdminRole) && (fault || id !in t.students) ==> r.tables == t
    ensures s.role == Some(AdminRole) && !fault ==>
      && id !in r.tables.students
      && r.tables.students.Keys == t.students.Keys - {id}
      && AgreeExcept(t.students, r.tables.students, id)
      && r.tables.(students := t.students) == t
  {
    AdminRequired(t, s, (t0: Tables, s0: Session) =>
      var w := DeleteStudentRow(t0, id, fault);
      Step(w.tables, s0, StudentDeleted))
  }

  /** Two edits submitted at the same version cannot both take effect: once
      the first has rewritten the row, the second changes nothing. */
  lemma SameVersionEditsConflict(t: Tables, s: Session, id: string, f1: StudentFields, f2: StudentFields,
                                 version: int, fault1: bool, fault2: bool)
    ensures var first := EditStudent(t, s, id, f1, version, fault1);
      var second := EditStudent(first.tables, first.session, id, f2, version, fault2);
      first.tables != t ==> second.tables == first.tables
  {
  }

  /** Once an edit at some version has rewritten the row, a second edit at the
      same version is reported as a concurrent modification unless the engine
      rejects it. */
  lemma SameVersionEditReportsConflict(t: Tables, s: Session, id: string, f1: StudentFields, f2: StudentFields,
                                       version: int, fault1: bool)
    ensures var first := EditStudent(t, s, id, f1, version, fault1);
      var second := EditStudent(first.tables, first.session, id, f2, version, false);
      first.tables != t ==> second.outcome == ConcurrentModification
  {
  }

  /** An admin who edits with the version the edit form showed succeeds, and
      the new version is exactly one more than the one shown. */
  lemma EditAfterFormSucceeds(t: Tables, s: Session, id: string, f: StudentFields)
    requires s.role == Some(AdminRole)
    requires EditForm(t, s, id).outcome.EditFormShown?
    ensures var shown := EditForm(t, s, id).outcome.student;
      var edit := EditStudent(t, s, id, f, shown.version, false);
      && edit.outcome == StudentUpdated
      && edit.tables.students[id] == Student(f, shown.version + 1)
  {
  }

  /** Deleting twice is deleting once, and deleting an absent id changes
      nothing yet still reports success. */
  lemma DeleteIdempotent(t: Tables, s: Session, id: string)
    requires s.role == Some(AdminRole)
    ensures var once := DeleteStudent(t, s, id, false);
      && DeleteStudent(once.tables, once.session, id, false) == once
      && (id !in t.students ==> once == Step(t, s, StudentDeleted))
  {
  }

  /** Once deleted, a student's edit form reports it missing and an edit of
      it is reported as a concurrent modification. */
  lemma DeletedStudentIsGone(t: Tables, s: Session, id: string, f: StudentFields, version: int)
    requires s.role == Some(AdminRole)
    ensures var gone := DeleteStudent(t, s, id, false);
      && EditForm(gone.tables, gone.session, id).outcome == StudentNotFound
      && EditStudent(gone.tables, gone.session, id, f, version, false).outcome == ConcurrentModification
  {
  }
}
