/** The statements of models/model.result.go over the `result` table. */
module ResultModel {

  import opened Prelude
  import opened Errors
  import opened Seqs
  import opened Store
  import RequestParser

  /** `(*ResultModel).Insert`: one new row holding exactly the given
      enrollment, grade, marks and creator, a fresh id and
      `is_delete = false`; nothing else changes. */
  function Insert(db: Db, studentEnrollId: Uuid, grade: string, marks: int, createdBy: Uuid): (r: (Db, ResultRow))
    ensures r.1.studentEnrollId == studentEnrollId && r.1.grade == grade && r.1.marks == marks
    ensures r.1.createdBy == createdBy && !r.1.isDelete && r.1.updatedBy.None?
    ensures r.0.results == db.results + [r.1]
    ensures r.0 == db.(results := r.0.results, nextId := r.0.nextId)
    ensures Valid(db) ==> Valid(r.0) && r.1.id != Nil
    ensures Valid(db) ==> forall i :: 0 <= i < |db.results| ==> db.results[i].id != r.1.id
  {
    var (id, db1) := NewId(db);
    var row := ResultRow(id, studentEnrollId, grade, marks, false, createdBy, None);
    (db1.(results := db1.results + [row]), row)
  }

  /** The row an `UPDATE result SET grade, marks, updated_by` leaves
      behind when `hit` says the WHERE clause matched it. */
  function Regraded(row: ResultRow, hit: bool, grade: string, marks: int, updatedBy: Uuid): ResultRow {
    if hit then row.(grade := grade, marks := marks, updatedBy := Some(updatedBy)) else row
  }

  /** The `UPDATE result SET grade, marks, updated_by … RETURNING …` both
      update methods run through `QueryRow`, with `hit` as its WHERE
      clause.  Every matching row is rewritten; when none matches the
      driver reports `sql.ErrNoRows`. */
  function RegradeWhere(db: Db, hit: ResultRow -> bool, grade: string, marks: int, updatedBy: Uuid): (r: Result<Db, Cause>)
    ensures r.Err? <==> forall i :: 0 <= i < |db.results| ==> !hit(db.results[i])
    ensures r.Err? ==> r.error == NoRows
    ensures r.Ok? ==> |r.value.results| == |db.results| && r.value == db.(results := r.value.results)
    ensures r.Ok? ==> forall i :: 0 <= i < |db.results| ==>
              r.value.results[i] == Regraded(db.results[i], hit(db.results[i]), grade, marks, updatedBy)
  {
    if Find(db.results, hit).None? then Err(NoRows)
    else Ok(db.(results := Map(db.results, (row: ResultRow) => Regraded(row, hit(row), grade, marks, updatedBy))))
  }

  /** `(*ResultModel).Update`: the statement keyed on the result id. */
  function Update(db: Db, id: Uuid, grade: string, marks: int, updatedBy: Uuid): (r: Result<Db, Cause>)
    ensures r.Err? <==> forall i :: 0 <= i < |db.results| ==> db.results[i].id != id
    ensures r.Err? ==> r.error == NoRows
    ensures r.Ok? ==> |r.value.results| == |db.results| && r.value == db.(results := r.value.results)
    ensures r.Ok? ==> forall i :: 0 <= i < |db.results| && db.results[i].id == id ==>
              r.value.results[i] == db.results[i].(grade := grade, marks := marks, updatedBy := Some(updatedBy))
    ensures r.Ok? ==> forall i :: 0 <= i < |db.results| && db.results[i].id != id ==>
              r.value.results[i] == db.results[i]
  {
    RegradeWhere(db, (row: ResultRow) => row.id == id, grade, marks, updatedBy)
  }

  /** `(*ResultModel).UpdateByStudentEnroll`: the same statement keyed on
      `student_enroll_id`, so every result of the enrollment is
      rewritten. */
  function UpdateByStudentEnroll(db: Db, studentEnrollId: Uuid, grade: string, marks: int, updatedBy: Uuid): (r: Result<Db, Cause>)
    ensures r.Err? <==> forall i :: 0 <= i < |db.results| ==> db.results[i].studentEnrollId != studentEnrollId
    ensures r.Err? ==> r.error == NoRows
    ensures r.Ok? ==> |r.value.results| == |db.results| && r.value == db.(results := r.value.results)
    ensures r.Ok? ==> forall i :: 0 <= i < |db.results| && db.results[i].studentEnrollId == studentEnrollId ==>
              r.value.results[i] == db.results[i].(grade := grade, marks := marks, updatedBy := Some(updatedBy))
    ensures r.Ok? ==> forall i :: 0 <= i < |db.results| && db.results[i].studentEnrollId != studentEnrollId ==>
              r.value.results[i] == db.results[i]
  {
    RegradeWhere(db, (row: ResultRow) => row.studentEnrollId == studentEnrollId, grade, marks, updatedBy)
  }

  function Withdrawn(row: ResultRow, id: Uuid, updatedBy: Uuid): ResultRow {
    if row.id == id then row.(isDelete := true, updatedBy := Some(updatedBy)) else row
  }

  /** `(*ResultModel).Delete`: an `Exec`, so a missing id is not an
      error; exactly the rows with the id are marked deleted. */
  function Delete(db: Db, id: Uuid, updatedBy: Uuid): (r: Db)
    ensures |r.results| == |db.results| && r == db.(results := r.results)
    ensures forall i :: 0 <= i < |db.results| && db.results[i].id == id ==>
              r.results[i] == db.results[i].(isDelete := true, updatedBy := Some(updatedBy))
    ensures forall i :: 0 <= i < |db.results| && db.results[i].id != id ==> r.results[i] == db.results[i]
    ensures Valid(db) ==> Valid(r)
  {
    db.(results := Map(db.results, (row: ResultRow) => Withdrawn(row, id, updatedBy)))
  }

  /** `GetOneResult`: the first row with the id, deleted or not. */
  function GetOne(db: Db, id: Uuid): (r: Result<ResultRow, Cause>)
    ensures r.Ok? ==> r.value in db.results && r.value.id == id
    ensures r.Err? <==> forall i :: 0 <= i < |db.results| ==> db.results[i].id != id
    ensures r.Err? ==> r.error == NoRows
  {
    SelectOne(db.results, (row: ResultRow) => row.id == id)
  }

  /** `GetAllResultByStudentEnroll`: no `is_delete` condition; the
      enrollment condition only when the filter names one. */
  function GetAllByStudentEnroll(db: Db, f: RequestParser.Filter): (r: Result<seq<ResultRow>, Cause>)
    ensures r.Err? <==> f.limit < 0 || f.offset < 0
    ensures r.Ok? ==> |r.value| <= f.limit
    ensures r.Ok? ==> forall i :: 0 <= i < |r.value| ==>
              r.value[i] in db.results && (f.studentEnrollId != Nil ==> r.value[i].studentEnrollId == f.studentEnrollId)
    ensures r.Ok? && f.offset == 0 && |db.results| <= f.limit ==>
              forall i :: 0 <= i < |db.results| && (f.studentEnrollId == Nil || db.results[i].studentEnrollId == f.studentEnrollId) ==>
                db.results[i] in r.value
  {
    Select(db.results, (row: ResultRow) => f.studentEnrollId == Nil || row.studentEnrollId == f.studentEnrollId,
           f.limit, f.offset)
  }

  /** The enrollment a result joins to (`r.student_enroll_id = se.id`). */
  function EnrollOf(db: Db, row: ResultRow): (e: Option<EnrollRow>)
    ensures e.Some? ==> e.value in db.enrolls && e.value.id == row.studentEnrollId
    ensures e.None? <==> forall i :: 0 <= i < |db.enrolls| ==> db.enrolls[i].id != row.studentEnrollId
  {
    match SelectOne(db.enrolls, (e: EnrollRow) => e.id == row.studentEnrollId)
    case Ok(e) => Some(e)
    case Err(_) => None
  }

  /** The WHERE clause and joins of `GetAllResult`: a live result whose
      enrollment, student and session exist, of the filter's student and
      subject when they are named, and whose student's lower-cased name
      is `LIKE` the lower-cased search wrapped in `%` when there is one. */
  predicate Listed(db: Db, f: RequestParser.Filter, row: ResultRow) {
    && !row.isDelete
    && EnrollOf(db, row).Some?
    && EnrollOf(db, row).value.studentId in db.students
    && EnrollOf(db, row).value.sessionId in db.sessions
    && (f.studentId == Nil || EnrollOf(db, row).value.studentId == f.studentId)
    && (f.subjectId == Nil || db.sessions[EnrollOf(db, row).value.sessionId].subjectId == f.subjectId)
    && (f.search == "" || NameMatches(db.students[EnrollOf(db, row).value.studentId].name, f.search))
  }

  /** `LOWER(st.name) LIKE LOWER('%search%')`. */
  predicate NameMatches(name: string, search: string) {
    Like(RequestParser.Lower(name), RequestParser.Lower("%" + search + "%"))
  }

  /** `GetAllResult` formats both the search text (inside a string
      literal) and the direction (twice, into the ORDER BY) into its
      statement; it parses when neither breaks out of its place. */
  predicate Parses(f: RequestParser.Filter) {
    SortParses(f.dir) && LiteralParses(f.search)
  }

  /** `GetAllResult`: deleted results never appear. */
  function GetAll(db: Db, f: RequestParser.Filter): (r: Result<seq<ResultRow>, Cause>)
    ensures r.Err? <==> !Parses(f) || f.limit < 0 || f.offset < 0
    ensures !Parses(f) ==> r == Err(SyntaxError)
    ensures r.Ok? ==> |r.value| <= f.limit
    ensures r.Ok? ==> forall i :: 0 <= i < |r.value| ==>
              r.value[i] in db.results && !r.value[i].isDelete && Listed(db, f, r.value[i])
    ensures r.Ok? && f.offset == 0 && |db.results| <= f.limit ==>
              forall i :: 0 <= i < |db.results| && Listed(db, f, db.results[i]) ==> db.results[i] in r.value
  {
    SelectFormatted(Parses(f), db.results, (row: ResultRow) => Listed(db, f, row), f.limit, f.offset)
  }

  // ------------------------------------------------------------ lemmas

  /** A deleted result disappears from `GetAllResult` (which, with the
      window taking every row, succeeds exactly when its statement
      parses) but is still returned by the lookup by id and by the
      listing per enrollment. */
  lemma DeleteHidesOnlyFromGetAll(db: Db, i: nat, actor: Uuid, f: RequestParser.Filter)
    requires i < |db.results|
    requires f.offset == 0 && |db.results| <= f.limit
    ensures var db1 := Delete(db, db.results[i].id, actor);
            GetAll(db1, f).Ok? <==> Parses(f)
    ensures var db1 := Delete(db, db.results[i].id, actor);
            var row := db1.results[i];
            (GetAll(db1, f).Ok? ==> row !in GetAll(db1, f).value)
            && GetOne(db1, row.id).Ok?
            && GetAllByStudentEnroll(db1, f.(studentEnrollId := row.studentEnrollId)).Ok?
            && row in GetAllByStudentEnroll(db1, f.(studentEnrollId := row.studentEnrollId)).value
  {
    var db1 := Delete(db, db.results[i].id, actor);
    var row := db1.results[i];
    assert row.isDelete;
  }

  /** An update by id followed by the lookup by id shows the new grade
      and marks. */
  lemma UpdateThenGetOne(db: Db, id: Uuid, grade: string, marks: int, actor: Uuid)
    ensures var r := Update(db, id, grade, marks, actor);
            r.Ok? ==> GetOne(r.value, id).Ok? && GetOne(r.value, id).value.grade == grade
                      && GetOne(r.value, id).value.marks == marks
  {
    var r := Update(db, id, grade, marks, actor);
    if r.Ok? {
      var one := GetOne(r.value, id);
      assert one.Ok? by {
        var k :| 0 <= k < |db.results| && db.results[k].id == id;
        assert r.value.results[k].id == id;
      }
      var k :| 0 <= k < |r.value.results| && r.value.results[k] == one.value;
      assert db.results[k].id == id;
    }
  }

  /** A result inserted for an enrollment is in that enrollment's
      listing when it fits the window. */
  lemma InsertThenListByStudentEnroll(db: Db, seId: Uuid, grade: string, marks: int, actor: Uuid, f: RequestParser.Filter)
    requires f.studentEnrollId == seId && f.offset == 0 && |db.results| < f.limit
    ensures var (db1, row) := Insert(db, seId, grade, marks, actor);
            GetAllByStudentEnroll(db1, f).Ok? && row in GetAllByStudentEnroll(db1, f).value
  {
    var (db1, row) := Insert(db, seId, grade, marks, actor);
    assert db1.results[|db.results|] == row;
  }

  /** With a search free of quotes and `LIKE` pattern characters, the
      search condition is a case-insensitive substring test on the
      student's name. */
  lemma {:induction false} SearchIsNameContains(name: string, search: string)
    requires forall i :: 0 <= i < |search| ==> PlainChar(search[i])
    ensures NameMatches(name, search) <==> Contains(RequestParser.Lower(name), RequestParser.Lower(search))
  {
    var q := RequestParser.Lower(search);
    assert RequestParser.Lower("%" + search + "%") == "%" + q + "%";
    assert forall i :: 0 <= i < |q| ==> PlainChar(q[i]) by {
      forall i | 0 <= i < |q| ensures PlainChar(q[i]) {
        assert q[i] == RequestParser.LowerChar(search[i]);
      }
    }
    LikeIsContains(RequestParser.Lower(name), q);
  }

  /** A search text with a quote ends the string literal early, so the
      listing fails whatever the window. */
  lemma QuotedSearchFails(db: Db, f: RequestParser.Filter)
    requires exists i :: 0 <= i < |f.search| && f.search[i] == '\''
    ensures GetAll(db, f) == Err(SyntaxError)
  {
  }
}
