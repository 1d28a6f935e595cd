/** api/api.result.go: the result handlers.  Every write derives the
    grade from the marks with `GetGrade`; none checks that the marks lie
    in 0..100.  `LecturerAddResult` belongs to `LecturerModule` and tags
    its errors with that module's name. */
module ResultApi {

  import opened Prelude
  import opened Errors
  import opened Store
  import opened Util
  import ResultModel

  /** `ResultModule.name`. */
  const Name: string := "module/result"

  /** `LecturerModule.name`, the prefix `LecturerAddResult` uses. */
  const LecturerName: string := "module/lecturer"

  /** Which statement of a handler the driver fails: the write itself, or
      the lookups behind `Response`. */
  datatype WriteFaults = WriteFaults(write: Option<Cause>, response: Option<Cause>)

  /** A row whose grade is the one its marks earn. */
  predicate Graded(row: ResultRow) {
    row.grade == GetGrade(row.marks)
  }

  /** Every live or deleted row of the table is consistently graded. */
  predicate AllGraded(db: Db) {
    forall i :: 0 <= i < |db.results| ==> Graded(db.results[i])
  }

  /** The shared body of `Add` and `LecturerAddResult`: insert one result
      for `studentEnrollId` with the marks as given and the grade they
      earn, recorded as created by `createdBy`. */
  function Record(db: Db, prefix: string, insertTag: string, responseTag: string, createdBy: Uuid, studentEnrollId: Uuid, marks: int,
                  faults: WriteFaults): (r: Outcome<ResultRow>)
    ensures faults.write.Some? ==> r == Outcome(db, Err(Internal(faults.write.value, prefix, insertTag)))
    ensures faults.write.None? ==>
              && |r.db.results| == |db.results| + 1
              && r.db.results[..|db.results|] == db.results
              && r.db == db.(results := r.db.results, nextId := db.nextId + 1)
              && r.db.results[|db.results|].studentEnrollId == studentEnrollId
              && r.db.results[|db.results|].marks == marks
              && Graded(r.db.results[|db.results|])
              && r.db.results[|db.results|].createdBy == createdBy
              && !r.db.results[|db.results|].isDelete
    ensures faults.write.None? && faults.response.Some? ==>
              r.reply == Err(Internal(faults.response.value, prefix, responseTag))
    ensures r.reply.Ok? <==> faults.write.None? && faults.response.None?
    ensures r.reply.Ok? ==> r.reply.value == r.db.results[|db.results|]
  {
    if faults.write.Some? then Outcome(db, Err(Internal(faults.write.value, prefix, insertTag)))
    else
      var (db1, row) := ResultModel.Insert(db, studentEnrollId, GetGrade(marks), marks, createdBy);
      assert db1.results[|db.results|] == row;
      if faults.response.Some? then Outcome(db1, Err(Internal(faults.response.value, prefix, responseTag)))
      else Outcome(db1, Ok(row))
  }

  /** `ResultModule.Add`: the caller is recorded as the creator. */
  function Add(db: Db, caller: Uuid, studentEnrollId: Uuid, marks: int, faults: WriteFaults): (r: Outcome<ResultRow>)
    ensures r.reply.Ok? <==> faults.write.None? && faults.response.None?
    ensures faults.write.Some? ==> r == Outcome(db, Err(Internal(faults.write.value, Name, "Add/Insert")))
    ensures faults.write.None? && faults.response.Some? ==>
              r.reply == Err(Internal(faults.response.value, Name, "Add/Response"))
    ensures faults.write.None? ==>
              && |r.db.results| == |db.results| + 1
              && r.db.results[..|db.results|] == db.results
              && r.db.results[|db.results|].createdBy == caller
              && r.db.results[|db.results|].marks == marks
              && r.db.results[|db.results|].grade == GetGrade(marks)
  {
    Record(db, Name, "Add/Insert", "Add/Response", caller, studentEnrollId, marks, faults)
  }

  /** `LecturerModule.LecturerAddResult`: the creator is a freshly
      generated id, passed in as `generated`; the caller plays no part. */
  function LecturerAddResult(db: Db, caller: Uuid, generated: Uuid, studentEnrollId: Uuid, marks: int,
                             faults: WriteFaults): (r: Outcome<ResultRow>)
    ensures r.reply.Ok? <==> faults.write.None? && faults.response.None?
    ensures faults.write.Some? ==>
              r == Outcome(db, Err(Internal(faults.write.value, LecturerName, "LecturerAddResult/Insert")))
    ensures faults.write.None? && faults.response.Some? ==>
              r.reply == Err(Internal(faults.response.value, LecturerName, "LecturerAddResult/Response"))
    ensures faults.write.None? ==>
              && |r.db.results| == |db.results| + 1
              && r.db.results[|db.results|].createdBy == generated
              && r.db.results[|db.results|].grade == GetGrade(marks)
  {
    Record(db, LecturerName, "LecturerAddResult/Insert", "LecturerAddResult/Response", generated, studentEnrollId, marks, faults)
  }

  /** `ResultModule.Update`: regrade the result with the id.  A missing id
      surfaces as `sql.ErrNoRows` under the tag "Update/Update"; a failed
      statement writes nothing. */
  function Update(db: Db, caller: Uuid, id: Uuid, marks: int, faults: WriteFaults): (r: Outcome<()>)
    ensures faults.write.Some? ==> r == Outcome(db, Err(Internal(faults.write.value, Name, "Update/Update")))
    ensures faults.write.None? && (forall i :: 0 <= i < |db.results| ==> db.results[i].id != id) ==>
              r == Outcome(db, Err(Internal(NoRows, Name, "Update/Update")))
    ensures r.reply.Ok? <==> && faults.write.None? && faults.response.None?
                             && exists i :: 0 <= i < |db.results| && db.results[i].id == id
    ensures |r.db.results| == |db.results| && r.db == db.(results := r.db.results)
    ensures forall i :: 0 <= i < |db.results| && db.results[i].id != id ==> r.db.results[i] == db.results[i]
    ensures faults.write.None? ==>
              forall i :: 0 <= i < |db.results| && db.results[i].id == id ==>
                r.db.results[i] == db.results[i].(grade := GetGrade(marks), marks := marks, updatedBy := Some(caller))
  {
    if faults.write.Some? then Outcome(db, Err(Internal(faults.write.value, Name, "Update/Update")))
    else
      match ResultModel.Update(db, id, GetGrade(marks), marks, caller)
      case Err(e) => Outcome(db, Err(Internal(e, Name, "Update/Update")))
      case Ok(db1) =>
        if faults.response.Some? then Outcome(db1, Err(Internal(faults.response.value, Name, "Update/Response")))
        else Outcome(db1, Ok(()))
  }

  /** `ResultModule.LecturerUpdateResult`: regrade every result of the
      enrolment.  Its update tag carries a leading space. */
  function LecturerUpdateResult(db: Db, caller: Uuid, studentEnrollId: Uuid, marks: int, faults: WriteFaults): (r: Outcome<()>)
    ensures faults.write.Some? ==>
              r == Outcome(db, Err(Internal(faults.write.value, Name, " LecturerUpdateResult/Update")))
    ensures faults.write.None? && (forall i :: 0 <= i < |db.results| ==> db.results[i].studentEnrollId != studentEnrollId) ==>
              r == Outcome(db, Err(Internal(NoRows, Name, " LecturerUpdateResult/Update")))
    ensures r.reply.Ok? <==> && faults.write.None? && faults.response.None?
                             && exists i :: 0 <= i < |db.results| && db.results[i].studentEnrollId == studentEnrollId
    ensures |r.db.results| == |db.results| && r.db == db.(results := r.db.results)
    ensures forall i :: 0 <= i < |db.results| && db.results[i].studentEnrollId != studentEnrollId ==>
              r.db.results[i] == db.results[i]
    ensures faults.write.None? ==>
              forall i :: 0 <= i < |db.results| && db.results[i].studentEnrollId == studentEnrollId ==>
                r.db.results[i] == db.results[i].(grade := GetGrade(marks), marks := marks, updatedBy := Some(caller))
  {
    if faults.write.Some? then Outcome(db, Err(Internal(faults.write.value, Name, " LecturerUpdateResult/Update")))
    else
      match ResultModel.UpdateByStudentEnroll(db, studentEnrollId, GetGrade(marks), marks, caller)
      case Err(e) => Outcome(db, Err(Internal(e, Name, " LecturerUpdateResult/Update")))
      case Ok(db1) =>
        if faults.response.Some? then
          Outcome(db1, Err(Internal(faults.response.value, Name, "LecturerUpdateResult/Response")))
        else Outcome(db1, Ok(()))
  }

  /** `ResultModule.Delete`: soft-delete by id.  The statement is an
      `Exec`, so only a driver failure is an error; success returns no
      data. */
  function Delete(db: Db, caller: Uuid, id: Uuid, fault: Option<Cause>): (r: Outcome<()>)
    ensures fault.Some? ==> r == Outcome(db, Err(Internal(fault.value, Name, "Delete/Delete")))
    ensures fault.None? ==> r.reply == Ok(())
    ensures |r.db.results| == |db.results| && r.db == db.(results := r.db.results)
    ensures fault.None? ==>
              forall i :: 0 <= i < |db.results| && db.results[i].id == id ==>
                r.db.results[i].isDelete && r.db.results[i].updatedBy == Some(caller)
                && r.db.results[i].grade == db.results[i].grade && r.db.results[i].marks == db.results[i].marks
    ensures forall i :: 0 <= i < |db.results| && db.results[i].id != id ==> r.db.results[i] == db.results[i]
  {
    if fault.Some? then Outcome(db, Err(Internal(fault.value, Name, "Delete/Delete")))
    else Outcome(ResultModel.Delete(db, id, caller), Ok(()))
  }

  // ------------------------------------------------------------ lemmas

  /** There is no range check: any mark is stored as given, and a mark
      outside 40..100 — above 100 or negative included — is graded "F". */
  lemma OutOfRangeMarksStoredAsF(db: Db, caller: Uuid, studentEnrollId: Uuid, marks: int)
    requires marks < 0 || marks > 100
    ensures var none := WriteFaults(None, None);
            var r := Add(db, caller, studentEnrollId, marks, none);
            r.reply.Ok? && r.reply.value.marks == marks && r.reply.value.grade == "F"
  {
  }

  /** An insert through `Record` keeps every stored grade consistent
      with its marks. */
  lemma RecordKeepsGrades(db: Db, prefix: string, insertTag: string, responseTag: string, createdBy: Uuid,
                          studentEnrollId: Uuid, marks: int, faults: WriteFaults)
    requires AllGraded(db)
    ensures AllGraded(Record(db, prefix, insertTag, responseTag, createdBy, studentEnrollId, marks, faults).db)
  {
    var a := Record(db, prefix, insertTag, responseTag, createdBy, studentEnrollId, marks, faults).db;
    if faults.write.None? {
      forall i | 0 <= i < |a.results|
        ensures Graded(a.results[i])
      {
        if i < |db.results| { assert a.results[i] == a.results[..|db.results|][i]; }
      }
    }
  }

  /** The result handlers keep every stored grade consistent with its
      marks: adding, regrading and deleting all preserve `AllGraded`. */
  lemma WritesKeepGrades(db: Db, caller: Uuid, generated: Uuid, id: Uuid, marks: int, faults: WriteFaults, fault: Option<Cause>)
    requires AllGraded(db)
    ensures AllGraded(Add(db, caller, id, marks, faults).db)
    ensures AllGraded(LecturerAddResult(db, caller, generated, id, marks, faults).db)
    ensures AllGraded(Update(db, caller, id, marks, faults).db)
    ensures AllGraded(LecturerUpdateResult(db, caller, id, marks, faults).db)
    ensures AllGraded(Delete(db, caller, id, fault).db)
  {
    RecordKeepsGrades(db, Name, "Add/Insert", "Add/Response", caller, id, marks, faults);
    RecordKeepsGrades(db, LecturerName, "LecturerAddResult/Insert", "LecturerAddResult/Response", generated, id, marks, faults);
    var u := Update(db, caller, id, marks, faults).db;
    assert AllGraded(u) by {
      forall i | 0 <= i < |u.results| ensures Graded(u.results[i]) {
        assert Graded(db.results[i]);
      }
    }
    var v := LecturerUpdateResult(db, caller, id, marks, faults).db;
    assert AllGraded(v) by {
      forall i | 0 <= i < |v.results| ensures Graded(v.results[i]) {
        assert Graded(db.results[i]);
      }
    }
    var d := Delete(db, caller, id, fault).db;
    assert AllGraded(d) by {
      forall i | 0 <= i < |d.results| ensures Graded(d.results[i]) {
        assert Graded(db.results[i]);
      }
    }
  }

  /** The caller of `LecturerAddResult` leaves no trace in the store. */
  lemma LecturerAddIgnoresCaller(db: Db, c1: Uuid, c2: Uuid, generated: Uuid, studentEnrollId: Uuid, marks: int,
                                 faults: WriteFaults)
    ensures LecturerAddResult(db, c1, generated, studentEnrollId, marks, faults)
         == LecturerAddResult(db, c2, generated, studentEnrollId, marks, faults)
  {
  }

  /** An accepted regrade is what the lookup by id then shows. */
  lemma UpdateThenDetail(db: Db, caller: Uuid, id: Uuid, marks: int)
    ensures var r := Update(db, caller, id, marks, WriteFaults(None, None));
            r.reply.Ok? ==> ResultModel.GetOne(r.db, id).Ok?
                            && ResultModel.GetOne(r.db, id).value.grade == GetGrade(marks)
                            && ResultModel.GetOne(r.db, id).value.marks == marks
  {
    ResultModel.UpdateThenGetOne(db, id, GetGrade(marks), marks, caller);
  }
}
