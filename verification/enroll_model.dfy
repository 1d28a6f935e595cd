/** The statements of models/model.student.enroll.go over the
    `student_enroll` table.  Which query looks at `is_delete`, and which id
    filter is dropped when the id is nil, follow each WHERE clause. */
module EnrollModel {

  import opened Prelude
  import opened Errors
  import opened Seqs
  import opened Store
  import RequestParser

  /** The zero `StudentEnrollModel{}` a failed single-row lookup returns. */
  const ZeroEnroll: EnrollRow := EnrollRow(Nil, Nil, Nil, false, Nil, None)

  /** `(*StudentEnrollModel).Insert`: one new row with the given session,
      student and creator, a fresh id and the column default
      `is_delete = false`; nothing else changes. */
  function Insert(db: Db, sessionId: Uuid, studentId: Uuid, createdBy: Uuid): (r: (Db, EnrollRow))
    ensures r.1.sessionId == sessionId && r.1.studentId == studentId && r.1.createdBy == createdBy
    ensures !r.1.isDelete && r.1.updatedBy.None?
    ensures r.0.enrolls == db.enrolls + [r.1]
    ensures r.0 == db.(enrolls := r.0.enrolls, nextId := r.0.nextId)
    ensures Valid(db) ==> Valid(r.0) && r.1.id != Nil
    ensures Valid(db) ==> forall i :: 0 <= i < |db.enrolls| ==> db.enrolls[i].id != r.1.id
  {
    var (id, db1) := NewId(db);
    var row := EnrollRow(id, sessionId, studentId, false, createdBy, None);
    (db1.(enrolls := db1.enrolls + [row]), row)
  }

  /** The row `(*StudentEnrollModel).Delete` leaves behind for `row`. */
  function Withdrawn(row: EnrollRow, id: Uuid, updatedBy: Uuid): EnrollRow {
    if row.id == id then row.(isDelete := true, updatedBy := Some(updatedBy)) else row
  }

  /** `(*StudentEnrollModel).Delete`: an `Exec` of `UPDATE … SET
      is_delete = true, updated_by = $1 WHERE id = $2`.  Exactly the rows
      with that id are marked, no other field or row changes, and a
      missing id is not an error. */
  function Delete(db: Db, id: Uuid, updatedBy: Uuid): (r: Db)
    ensures |r.enrolls| == |db.enrolls|
    ensures forall i :: 0 <= i < |db.enrolls| && db.enrolls[i].id == id ==>
              r.enrolls[i] == db.enrolls[i].(isDelete := true, updatedBy := Some(updatedBy))
    ensures forall i :: 0 <= i < |db.enrolls| && db.enrolls[i].id != id ==> r.enrolls[i] == db.enrolls[i]
    ensures r == db.(enrolls := r.enrolls)
    ensures Valid(db) ==> Valid(r)
  {
    db.(enrolls := Map(db.enrolls, (row: EnrollRow) => Withdrawn(row, id, updatedBy)))
  }

  /** `GetOneStudentEnroll`: the first live row with the id. */
  function GetOne(db: Db, id: Uuid): (r: Result<EnrollRow, Cause>)
    ensures r.Ok? ==> r.value in db.enrolls && r.value.id == id && !r.value.isDelete
    ensures r.Err? <==> forall i :: 0 <= i < |db.enrolls| ==> db.enrolls[i].id != id || db.enrolls[i].isDelete
    ensures r.Err? ==> r.error == NoRows
  {
    SelectOne(db.enrolls, (row: EnrollRow) => !row.isDelete && row.id == id)
  }

  /** `GetOneStudentEnrollBySessionAndStudentID`: the first row for the
      pair, withdrawn or not. */
  function GetOneBySessionAndStudent(db: Db, sessionId: Uuid, studentId: Uuid): (r: Result<EnrollRow, Cause>)
    ensures r.Ok? ==> r.value in db.enrolls && r.value.sessionId == sessionId && r.value.studentId == studentId
    ensures r.Err? <==> forall i :: 0 <= i < |db.enrolls| ==>
                          db.enrolls[i].sessionId != sessionId || db.enrolls[i].studentId != studentId
    ensures r.Err? ==> r.error == NoRows
  {
    SelectOne(db.enrolls, (row: EnrollRow) => row.sessionId == sessionId && row.studentId == studentId)
  }

  /** `GetAllStudentEnrollBySession`: no `is_delete` condition; the
      session condition only when the filter names a session. */
  function GetAllBySession(db: Db, f: RequestParser.Filter): (r: Result<seq<EnrollRow>, Cause>)
    ensures r.Err? <==> f.limit < 0 || f.offset < 0
    ensures r.Ok? ==> |r.value| <= f.limit
    ensures r.Ok? ==> forall i :: 0 <= i < |r.value| ==>
              r.value[i] in db.enrolls && (f.sessionId != Nil ==> r.value[i].sessionId == f.sessionId)
    ensures r.Ok? && f.offset == 0 && |db.enrolls| <= f.limit ==>
              forall i :: 0 <= i < |db.enrolls| && (f.sessionId == Nil || db.enrolls[i].sessionId == f.sessionId) ==>
                db.enrolls[i] in r.value
  {
    Select(db.enrolls, (row: EnrollRow) => f.sessionId == Nil || row.sessionId == f.sessionId, f.limit, f.offset)
  }

  /** `GetAllStudentEnrollByStudent`: live rows only; the student
      condition only when the filter names a student. */
  function GetAllByStudent(db: Db, f: RequestParser.Filter): (r: Result<seq<EnrollRow>, Cause>)
    ensures r.Err? <==> f.limit < 0 || f.offset < 0
    ensures r.Ok? ==> |r.value| <= f.limit
    ensures r.Ok? ==> forall i :: 0 <= i < |r.value| ==>
              r.value[i] in db.enrolls && !r.value[i].isDelete
              && (f.studentId != Nil ==> r.value[i].studentId == f.studentId)
    ensures r.Ok? && f.offset == 0 && |db.enrolls| <= f.limit ==>
              forall i :: 0 <= i < |db.enrolls| && !db.enrolls[i].isDelete
                          && (f.studentId == Nil || db.enrolls[i].studentId == f.studentId) ==>
                db.enrolls[i] in r.value
  {
    Select(db.enrolls, (row: EnrollRow) => !row.isDelete && (f.studentId == Nil || row.studentId == f.studentId), f.limit, f.offset)
  }

  /** `GetAllStudentEnrollByOneStudent` as written: the guard tests the
      student id, but the condition it adds compares `student_id` with the
      filter's session id.  Rows survive the INNER JOIN only when their
      session exists, and the direction is formatted into the ORDER BY. */
  function GetAllByOneStudentAsWritten(db: Db, f: RequestParser.Filter): (r: Result<seq<EnrollRow>, Cause>)
    ensures r.Err? <==> !SortParses(f.dir) || f.limit < 0 || f.offset < 0
    ensures !SortParses(f.dir) ==> r == Err(SyntaxError)
    ensures r.Ok? ==> |r.value| <= f.limit
    ensures r.Ok? ==> forall i :: 0 <= i < |r.value| ==>
              r.value[i] in db.enrolls && r.value[i].sessionId in db.sessions
              && (f.studentId != Nil ==> r.value[i].studentId == f.sessionId)
    ensures r.Ok? && f.offset == 0 && |db.enrolls| <= f.limit ==>
              forall i :: 0 <= i < |db.enrolls| && db.enrolls[i].sessionId in db.sessions
                          && (f.studentId == Nil || db.enrolls[i].studentId == f.sessionId) ==>
                db.enrolls[i] in r.value
  {
    SelectFormatted(SortParses(f.dir), db.enrolls, (row: EnrollRow) => row.sessionId in db.sessions && (f.studentId == Nil || row.studentId == f.sessionId),
           f.limit, f.offset)
  }

  /** `GetAllStudentEnrollByOneStudent` with the comparison the guard
      implies: the enrollments of the filter's student whose session
      exists, withdrawn ones included. */
  function GetAllByOneStudent(db: Db, f: RequestParser.Filter): (r: Result<seq<EnrollRow>, Cause>)
    ensures r.Err? <==> !SortParses(f.dir) || f.limit < 0 || f.offset < 0
    ensures !SortParses(f.dir) ==> r == Err(SyntaxError)
    ensures r.Ok? ==> |r.value| <= f.limit
    ensures r.Ok? ==> forall i :: 0 <= i < |r.value| ==>
              r.value[i] in db.enrolls && r.value[i].sessionId in db.sessions
              && (f.studentId != Nil ==> r.value[i].studentId == f.studentId)
    ensures r.Ok? && f.offset == 0 && |db.enrolls| <= f.limit ==>
              forall i :: 0 <= i < |db.enrolls| && db.enrolls[i].sessionId in db.sessions
                          && (f.studentId == Nil || db.enrolls[i].studentId == f.studentId) ==>
                db.enrolls[i] in r.value
  {
    SelectFormatted(SortParses(f.dir), db.enrolls, (row: EnrollRow) => row.sessionId in db.sessions && (f.studentId == Nil || row.studentId == f.studentId),
           f.limit, f.offset)
  }

  /** The discrepancy: a student with one enrollment in an existing
      session, asked for by student id alone, gets nothing back from the
      query as written, while the corrected query returns the row. */
  lemma OneStudentQueryMissesOwnRows()
    ensures var row := EnrollRow(1, 2, 3, false, 3, None);
            var db := Db([row], [], [], [], map[3 := StudentRow(9, "")], map[2 := SessionRow(9, 7, 5)], map[], false, 4);
            var f := RequestParser.Paging(10, "ASC").(studentId := 3);
            GetAllByOneStudentAsWritten(db, f) == Ok([])
            && GetAllByOneStudent(db, f) == Ok([row])
  {
    var row := EnrollRow(1, 2, 3, false, 3, None);
    var db := Db([row], [], [], [], map[3 := StudentRow(9, "")], map[2 := SessionRow(9, 7, 5)], map[], false, 4);
    var f := RequestParser.Paging(10, "ASC").(studentId := 3);
    var asWritten := GetAllByOneStudentAsWritten(db, f);
    assert asWritten.Ok?;
    var fixed := GetAllByOneStudent(db, f);
    assert row in fixed.value;
    assert |fixed.value| <= |Filter(db.enrolls, (r: EnrollRow) => r.sessionId in db.sessions && (f.studentId == Nil || r.studentId == f.studentId))|;
  }

  // ------------------------------------------------------------ lemmas

  /** An inserted enrollment is visible to the lookup by id. */
  lemma InsertThenGetOne(db: Db, sessionId: Uuid, studentId: Uuid, createdBy: Uuid)
    requires Valid(db)
    ensures var (db1, row) := Insert(db, sessionId, studentId, createdBy);
            GetOne(db1, row.id) == Ok(row)
  {
    var (db1, row) := Insert(db, sessionId, studentId, createdBy);
    assert db1.enrolls[|db.enrolls|] == row;
  }

  /** After a withdrawal the lookup by id no longer finds the row, but the
      lookup by session and student still does: a withdrawn enrollment
      keeps answering the duplicate check. */
  lemma DeleteHidesOnlyFromLiveLookup(db: Db, i: nat, actor: Uuid)
    requires i < |db.enrolls|
    ensures var row := db.enrolls[i];
            var db1 := Delete(db, row.id, actor);
            GetOne(db1, row.id).Err?
            && GetOneBySessionAndStudent(db1, row.sessionId, row.studentId).Ok?
  {
    var row := db.enrolls[i];
    var db1 := Delete(db, row.id, actor);
    assert db1.enrolls[i].sessionId == row.sessionId && db1.enrolls[i].studentId == row.studentId;
  }

  /** Withdrawing twice by the same caller is withdrawing once. */
  lemma DeleteIdempotent(db: Db, id: Uuid, actor: Uuid)
    ensures Delete(Delete(db, id, actor), id, actor) == Delete(db, id, actor)
  {
    var once := Delete(db, id, actor);
    var twice := Delete(once, id, actor);
    assert twice.enrolls == once.enrolls;
  }

  /** The by-session listing that `ClassModule.Add` relies on includes
      withdrawn enrollments. */
  lemma SessionListingKeepsWithdrawn(db: Db, f: RequestParser.Filter, i: nat)
    requires i < |db.enrolls| && db.enrolls[i].isDelete
    requires f.sessionId == db.enrolls[i].sessionId && f.offset == 0 && |db.enrolls| <= f.limit
    ensures GetAllBySession(db, f).Ok? && db.enrolls[i] in GetAllBySession(db, f).value
  {
  }
}
