/** The statements of models/model.attendance.go over the `attendance`
    table.  The table has no `is_delete` column, so no query filters on
    it. */
module AttendanceModel {

  import opened Prelude
  import opened Errors
  import opened Seqs
  import opened Store
  import RequestParser

  /** `(*AttendanceModel).Insert`: one new row with the given student,
      class and creator; `is_attend` is whatever the column default
      gives.  Nothing else changes. */
  function Insert(db: Db, studentId: Uuid, classId: Uuid, createdBy: Uuid): (r: (Db, AttendanceRow))
    ensures r.1.studentId == studentId && r.1.classId == classId && r.1.createdBy == createdBy
    ensures r.1.isAttend == db.attendDefault && r.1.updatedBy.None?
    ensures r.0.attendances == db.attendances + [r.1]
    ensures r.0 == db.(attendances := r.0.attendances, nextId := r.0.nextId)
    ensures r.1.id == db.nextId && r.0.nextId == db.nextId + 1
    ensures Valid(db) ==> Valid(r.0) && r.1.id != Nil
  {
    var (id, db1) := NewId(db);
    var row := AttendanceRow(id, studentId, classId, db.attendDefault, createdBy, None);
    (db1.(attendances := db1.attendances + [row]), row)
  }

  function Marked(row: AttendanceRow, id: Uuid, isAttend: bool, updatedBy: Uuid): AttendanceRow {
    if row.id == id then row.(isAttend := isAttend, updatedBy := Some(updatedBy)) else row
  }

  /** `(*AttendanceModel).Update`: `UPDATE … SET is_attend, updated_by
      WHERE id = $3 RETURNING …` through `QueryRow`; no matching row is
      `sql.ErrNoRows`. */
  function Update(db: Db, id: Uuid, isAttend: bool, updatedBy: Uuid): (r: Result<Db, Cause>)
    ensures r.Err? <==> forall i :: 0 <= i < |db.attendances| ==> db.attendances[i].id != id
    ensures r.Err? ==> r.error == NoRows
    ensures r.Ok? ==> |r.value.attendances| == |db.attendances| && r.value == db.(attendances := r.value.attendances)
    ensures r.Ok? ==> forall i :: 0 <= i < |db.attendances| && db.attendances[i].id == id ==>
              r.value.attendances[i] == db.attendances[i].(isAttend := isAttend, updatedBy := Some(updatedBy))
    ensures r.Ok? ==> forall i :: 0 <= i < |db.attendances| && db.attendances[i].id != id ==>
              r.value.attendances[i] == db.attendances[i]
  {
    if Find(db.attendances, (row: AttendanceRow) => row.id == id).None? then Err(NoRows)
    else Ok(db.(attendances := Map(db.attendances, (row: AttendanceRow) => Marked(row, id, isAttend, updatedBy))))
  }

  /** `GetAllAttendanceByClass`: the class condition only when the filter
      names a class; otherwise every row. */
  function GetAllByClass(db: Db, f: RequestParser.Filter): (r: Result<seq<AttendanceRow>, Cause>)
    ensures r.Err? <==> f.limit < 0 || f.offset < 0
    ensures r.Ok? ==> |r.value| <= f.limit
    ensures r.Ok? ==> forall i :: 0 <= i < |r.value| ==>
              r.value[i] in db.attendances && (f.classId != Nil ==> r.value[i].classId == f.classId)
    ensures r.Ok? && f.offset == 0 && |db.attendances| <= f.limit ==>
              forall i :: 0 <= i < |db.attendances| && (f.classId == Nil || db.attendances[i].classId == f.classId) ==>
                db.attendances[i] in r.value
  {
    Select(db.attendances, ClassWhere(f), f.limit, f.offset)
  }

  function ClassWhere(f: RequestParser.Filter): AttendanceRow -> bool {
    (row: AttendanceRow) => f.classId == Nil || row.classId == f.classId
  }

  function ClassAndStudentWhere(f: RequestParser.Filter): AttendanceRow -> bool {
    (row: AttendanceRow) => (f.classId == Nil || row.classId == f.classId)
                            && (f.studentId == Nil || row.studentId == f.studentId)
  }

  /** `GetAllAttendance`: the conjunction of the class and student
      conditions, each present only when its id is not nil.  The
      filter's direction is formatted into `ORDER BY class_id`, so a
      direction that does not parse fails the statement. */
  function GetAll(db: Db, f: RequestParser.Filter): (r: Result<seq<AttendanceRow>, Cause>)
    ensures r.Err? <==> !SortParses(f.dir) || f.limit < 0 || f.offset < 0
    ensures !SortParses(f.dir) ==> r == Err(SyntaxError)
    ensures r.Ok? ==> |r.value| <= f.limit
    ensures r.Ok? ==> forall i :: 0 <= i < |r.value| ==>
              r.value[i] in db.attendances
              && (f.classId != Nil ==> r.value[i].classId == f.classId)
              && (f.studentId != Nil ==> r.value[i].studentId == f.studentId)
    ensures r.Ok? && f.offset == 0 && |db.attendances| <= f.limit ==>
              forall i :: 0 <= i < |db.attendances|
                          && (f.classId == Nil || db.attendances[i].classId == f.classId)
                          && (f.studentId == Nil || db.attendances[i].studentId == f.studentId) ==>
                db.attendances[i] in r.value
  {
    SelectFormatted(SortParses(f.dir), db.attendances, ClassAndStudentWhere(f), f.limit, f.offset)
  }

  // ------------------------------------------------------------ lemmas

  /** With neither id set, both listings are the plain window over the
      whole table, except that the general listing fails on a direction
      that does not parse. */
  lemma NoFilterListsEverything(db: Db, f: RequestParser.Filter)
    requires f.classId == Nil && f.studentId == Nil
    requires f.offset == 0 && |db.attendances| <= f.limit
    ensures GetAll(db, f) == if SortParses(f.dir) then Ok(db.attendances) else Err(SyntaxError)
    ensures GetAllByClass(db, f) == Ok(db.attendances)
  {
    FilterAll(db.attendances, ClassAndStudentWhere(f));
    FilterAll(db.attendances, ClassWhere(f));
    WindowWhole(db.attendances, f.limit);
  }

  /** The class listing ignores the student filter: once the student id
      is cleared, the general listing succeeds exactly when the class
      listing does and the direction parses (only the general listing
      formats it into its SQL), and when the window takes every match the
      two hold the same rows.  The general listing sorts by `class_id`
      and the class listing does not, so a window that cuts the matches
      may hold different rows. */
  lemma ByClassIsGetAllWithoutStudent(db: Db, f: RequestParser.Filter)
    ensures GetAll(db, f.(studentId := Nil)).Ok? <==> GetAllByClass(db, f).Ok? && SortParses(f.dir)
    ensures GetAll(db, f.(studentId := Nil)).Ok? && f.offset == 0 && |db.attendances| <= f.limit ==>
              forall row :: row in GetAllByClass(db, f).value <==> row in GetAll(db, f.(studentId := Nil)).value
  {
    FilterSame(db.attendances, ClassWhere(f), ClassAndStudentWhere(f.(studentId := Nil)));
  }

  /** Marking attendance changes only that row's flag and updater. */
  lemma UpdateThenList(db: Db, i: nat, isAttend: bool, actor: Uuid)
    requires i < |db.attendances|
    ensures var r := Update(db, db.attendances[i].id, isAttend, actor);
            r.Ok? && r.value.attendances[i].isAttend == isAttend
            && r.value.attendances[i].studentId == db.attendances[i].studentId
            && r.value.attendances[i].classId == db.attendances[i].classId
  {
  }

  /** A filter whose query string failed to decode keeps its direction
      unnormalised: a direction such as "foo" reaches the ORDER BY of the
      general listing and fails it, while the class listing, which
      formats no direction, still answers. */
  lemma UndecodedDirFailsListing(db: Db)
    ensures var f := RequestParser.ParseFilter(RequestParser.Paging(10, "foo"), true).0;
            GetAll(db, f) == Err(SyntaxError) && GetAllByClass(db, f).Ok?
  {
    assert RequestParser.Lower("foo") == "foo";
  }
}
