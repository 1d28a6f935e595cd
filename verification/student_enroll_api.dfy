/** api/api.student.enroll.go: enrolment of the calling student in a
    session (`Add`) and its withdrawal with the cascade over the
    enrolment's results (`Delete`).  The clock is the parameter `now`, in
    seconds; driver failures are explicit fault parameters. */
module StudentEnrollApi {

  import opened Prelude
  import opened Errors
  import opened Seqs
  import opened Store
  import EnrollModel
  import ResultModel
  import RequestParser

  /** `StudentEnrollModule.name`, the prefix of every error tag. */
  const Name: string := "module/studentEnroll"

  /** A day, for `AddDate(0, 0, -5)`; calendar and time-zone effects are
      not modelled. */
  const Day: int := 86400

  /** Which statement of `Add` the driver fails, and with what.  The
      duplicate lookup's failure is given as the driver's message, so that
      it can never be mistaken for `sql.ErrNoRows`. */
  datatype AddFaults = AddFaults(
    student: Option<Cause>,
    session: Option<Cause>,
    existing: Option<string>,
    intake: Option<Cause>,
    enrollInsert: Option<Cause>,
    resultInsert: Option<Cause>,
    response: Option<Cause>)

  predicate NoFaults(f: AddFaults) {
    && f.student.None? && f.session.None? && f.existing.None? && f.intake.None?
    && f.enrollInsert.None? && f.resultInsert.None? && f.response.None?
  }

  /** The enrolment window: from five days before the intake starts to
      one second before it, both ends included. */
  predicate InWindow(now: int, start: int) {
    start - 5 * Day <= now <= start - 1
  }

  /** Whether some row, withdrawn or not, pairs the session with the
      student. */
  predicate HasRow(db: Db, sessionId: Uuid, studentId: Uuid) {
    exists i :: 0 <= i < |db.enrolls| && db.enrolls[i].sessionId == sessionId && db.enrolls[i].studentId == studentId
  }

  /** When `Add` accepts, stated independently of its control flow.  The
      nil session is never eligible: with no row for the pair, the zero
      row's nil session id equals the requested one. */
  predicate Eligible(db: Db, caller: Uuid, sessionId: Uuid, now: int) {
    && caller in db.students
    && sessionId in db.sessions
    && !HasRow(db, sessionId, caller)
    && sessionId != Nil
    && db.sessions[sessionId].intakeId in db.intakes
    && InWindow(now, db.intakes[db.sessions[sessionId].intakeId].startDate)
    && db.sessions[sessionId].programId == db.students[caller].programId
  }

  /** The placeholder result `Add` writes: grade "" (not the grade of 0
      marks) and 0 marks. */
  predicate Placeholder(row: ResultRow, studentEnrollId: Uuid, caller: Uuid) {
    row.studentEnrollId == studentEnrollId && row.grade == "" && row.marks == 0
    && !row.isDelete && row.createdBy == caller
  }

  /** `db2` is `db` with one enrolment of `caller` in `sessionId`
      appended, and optionally its placeholder result; nothing else
      differs but the id generator. */
  predicate Enrolled(db: Db, db2: Db, caller: Uuid, sessionId: Uuid) {
    && |db2.enrolls| == |db.enrolls| + 1
    && db2.enrolls[..|db.enrolls|] == db.enrolls
    && db2.enrolls[|db.enrolls|].sessionId == sessionId
    && db2.enrolls[|db.enrolls|].studentId == caller
    && db2.enrolls[|db.enrolls|].createdBy == caller
    && !db2.enrolls[|db.enrolls|].isDelete
    && (|| db2.results == db.results
        || (&& |db2.results| == |db.results| + 1
            && db2.results[..|db.results|] == db.results
            && Placeholder(db2.results[|db.results|], db2.enrolls[|db.enrolls|].id, caller)))
    && db2 == db.(enrolls := db2.enrolls, results := db2.results, nextId := db2.nextId)
  }

  /** How far a request gets through the checks of `Add`: each predicate
      holds when every step up to and including the named one passed. */
  predicate StudentFound(db: Db, caller: Uuid, faults: AddFaults) {
    faults.student.None? && caller in db.students
  }

  predicate SessionFound(db: Db, caller: Uuid, sessionId: Uuid, faults: AddFaults) {
    StudentFound(db, caller, faults) && faults.session.None? && sessionId in db.sessions
  }

  predicate NotYetEnrolled(db: Db, caller: Uuid, sessionId: Uuid, faults: AddFaults) {
    SessionFound(db, caller, sessionId, faults) && faults.existing.None?
    && !HasRow(db, sessionId, caller) && sessionId != Nil
  }

  predicate IntakeFound(db: Db, caller: Uuid, sessionId: Uuid, faults: AddFaults) {
    NotYetEnrolled(db, caller, sessionId, faults) && faults.intake.None?
    && db.sessions[sessionId].intakeId in db.intakes
  }

  /** The start date of the session's intake. */
  function StartOf(db: Db, sessionId: Uuid): int
    requires sessionId in db.sessions && db.sessions[sessionId].intakeId in db.intakes
  {
    db.intakes[db.sessions[sessionId].intakeId].startDate
  }

  /** The tag suffix of the first check of `Add` that fails, or `None`
      when all pass: an account of the order independent of `Screen`. */
  function FirstFailingStep(db: Db, caller: Uuid, sessionId: Uuid, now: int, faults: AddFaults): Option<string> {
    if !StudentFound(db, caller, faults) then Some("Add/GetOneStudent")
    else if !SessionFound(db, caller, sessionId, faults) then Some("Add/GetOneSession")
    else if faults.existing.Some? then Some("Add/GetOneStudentEnrollBySessionAndStudentID")
    else if !NotYetEnrolled(db, caller, sessionId, faults) then Some("Add/ValidationSession")
    else if !IntakeFound(db, caller, sessionId, faults) then Some("Add/GetOneIntake")
    else if !InWindow(now, StartOf(db, sessionId)) then Some("Add/ValidationDate")
    else if db.sessions[sessionId].programId != db.students[caller].programId then Some("Add/ValidationProgram")
    else None
  }

  /** The lookups and validations of `Add`, in source order, up to the
      first write: the error of the first step that fails, or `None`
      when the request may be written. */
  function Screen(db: Db, caller: Uuid, sessionId: Uuid, now: int, faults: AddFaults): (e: Option<Error>)
    ensures e.None? <==> && faults.student.None? && faults.session.None? && faults.existing.None?
                         && faults.intake.None? && Eligible(db, caller, sessionId, now)
    ensures e.Some? ==> e.value.statusCode == StatusInternalServerError && e.value.message == InternalServerError
                        && e.value.err.Some?
    // one clause per step, in the order of api/api.student.enroll.go:76-137
    ensures faults.student.Some? ==> e == Some(Internal(faults.student.value, Name, "Add/GetOneStudent"))
    ensures faults.student.None? && caller !in db.students ==> e == Some(Internal(NoRows, Name, "Add/GetOneStudent"))
    ensures StudentFound(db, caller, faults) && faults.session.Some? ==>
              e == Some(Internal(faults.session.value, Name, "Add/GetOneSession"))
    ensures StudentFound(db, caller, faults) && faults.session.None? && sessionId !in db.sessions ==>
              e == Some(Internal(NoRows, Name, "Add/GetOneSession"))
    ensures SessionFound(db, caller, sessionId, faults) && faults.existing.Some? ==>
              e == Some(Internal(Plain(faults.existing.value), Name, "Add/GetOneStudentEnrollBySessionAndStudentID"))
    ensures SessionFound(db, caller, sessionId, faults) && faults.existing.None? && (HasRow(db, sessionId, caller) || sessionId == Nil) ==>
              e == Some(Internal(Plain("You have already enroll this session"), Name, "Add/ValidationSession"))
    ensures NotYetEnrolled(db, caller, sessionId, faults) && faults.intake.Some? ==>
              e == Some(Internal(faults.intake.value, Name, "Add/GetOneIntake"))
    ensures NotYetEnrolled(db, caller, sessionId, faults) && faults.intake.None? && db.sessions[sessionId].intakeId !in db.intakes ==>
              e == Some(Internal(NoRows, Name, "Add/GetOneIntake"))
    ensures IntakeFound(db, caller, sessionId, faults) && !InWindow(now, StartOf(db, sessionId)) ==>
              e == Some(Internal(Plain("Invalid Time To Enroll"), Name, "Add/ValidationDate"))
    ensures IntakeFound(db, caller, sessionId, faults) && InWindow(now, StartOf(db, sessionId))
            && db.sessions[sessionId].programId != db.students[caller].programId ==>
              e == Some(Internal(Plain("This Session Is Not For Your Program"), Name, "Add/ValidationProgram"))
  {
    var student := Lookup(db.students, caller, faults.student);
    if student.Err? then Some(Internal(student.error, Name, "Add/GetOneStudent"))
    else
    var session := Lookup(db.sessions, sessionId, faults.session);
    if session.Err? then Some(Internal(session.error, Name, "Add/GetOneSession"))
    else
    var existing := if faults.existing.Some? then Err(Plain(faults.existing.value))
                    else EnrollModel.GetOneBySessionAndStudent(db, sessionId, caller);
    if existing.Err? && existing.error != NoRows then
      Some(Internal(existing.error, Name, "Add/GetOneStudentEnrollBySessionAndStudentID"))
    else
    var found := if existing.Ok? then existing.value else EnrollModel.ZeroEnroll;
    if found.sessionId == sessionId then
      Some(Internal(Plain("You have already enroll this session"), Name, "Add/ValidationSession"))
    else
    var intake := Lookup(db.intakes, session.value.intakeId, faults.intake);
    if intake.Err? then Some(Internal(intake.error, Name, "Add/GetOneIntake"))
    else if !InWindow(now, intake.value.startDate) then
      Some(Internal(Plain("Invalid Time To Enroll"), Name, "Add/ValidationDate"))
    else if session.value.programId != student.value.programId then
      Some(Internal(Plain("This Session Is Not For Your Program"), Name, "Add/ValidationProgram"))
    else
      None
  }

  /** `StudentEnrollModule.Add` for the student `caller` (the session's
      `user_id`) and the requested `sessionId`.  Every rejection is a 500
      with "Internal Server Error", and nothing is written unless the
      request is eligible and the enrolment insert succeeds. */
  function Add(db: Db, caller: Uuid, sessionId: Uuid, now: int, faults: AddFaults): (r: Outcome<EnrollRow>)
    ensures r.reply.Ok? <==> NoFaults(faults) && Eligible(db, caller, sessionId, now)
    ensures r.reply.Err? ==> r.reply.error.statusCode == StatusInternalServerError
                              && r.reply.error.message == InternalServerError
                              && r.reply.error.err.Some?
    ensures !Eligible(db, caller, sessionId, now) ==> r.db == db
    ensures r.db == db || Enrolled(db, r.db, caller, sessionId)
    ensures r.reply.Ok? ==> Enrolled(db, r.db, caller, sessionId)
                            && |r.db.results| == |db.results| + 1
                            && r.reply.value == r.db.enrolls[|db.enrolls|]
  {
    var screened := Screen(db, caller, sessionId, now, faults);
    if screened.Some? then Outcome(db, Err(screened.value))
    else if faults.enrollInsert.Some? then
      Outcome(db, Err(Internal(faults.enrollInsert.value, Name, "Add/StudentEnrollInsert")))
    else
    var (db1, enroll) := EnrollModel.Insert(db, sessionId, caller, caller);
    if faults.resultInsert.Some? then
      Outcome(db1, Err(Internal(faults.resultInsert.value, Name, "Add/ResultInsert")))
    else
    var (db2, placeholder) := ResultModel.Insert(db1, enroll.id, "", 0, caller);
    assert db2.enrolls == db1.enrolls;
    if faults.response.Some? then
      Outcome(db2, Err(Internal(faults.response.value, Name, "Add/Response")))
    else
      Outcome(db2, Ok(enroll))
  }

  // ------------------------------------------------------------ Add: order of checks

  /** The error `Add` reports before writing is tagged with the first
      check that fails, in source order. */
  lemma {:induction false} ScreenReportsFirstFailingStep(db: Db, caller: Uuid, sessionId: Uuid, now: int, faults: AddFaults)
    ensures var e := Screen(db, caller, sessionId, now, faults);
            && (e.None? <==> FirstFailingStep(db, caller, sessionId, now, faults).None?)
            && (e.Some? ==> Tag(e.value) == Name + "/" + FirstFailingStep(db, caller, sessionId, now, faults).value)
  {
  }

  /** A row for the pair blocks a new enrolment even when it was
      withdrawn: the duplicate check does not look at `is_delete`. */
  lemma WithdrawnEnrollmentStillBlocks(db: Db, caller: Uuid, i: nat, now: int, faults: AddFaults)
    requires i < |db.enrolls| && db.enrolls[i].studentId == caller && db.enrolls[i].isDelete
    requires caller in db.students && db.enrolls[i].sessionId in db.sessions
    requires faults.student.None? && faults.session.None? && faults.existing.None?
    ensures var r := Add(db, caller, db.enrolls[i].sessionId, now, faults);
            r == Outcome(db, Err(Internal(Plain("You have already enroll this session"), Name, "Add/ValidationSession")))
  {
    var sessionId := db.enrolls[i].sessionId;
    var existing := EnrollModel.GetOneBySessionAndStudent(db, sessionId, caller);
    assert existing.Ok? && existing.value.sessionId == sessionId;
    assert Screen(db, caller, sessionId, now, faults)
        == Some(Internal(Plain("You have already enroll this session"), Name, "Add/ValidationSession"));
  }

  /** Asking for the nil session, when a session row with the nil id
      exists, is always reported as a duplicate. */
  lemma NilSessionIsAlwaysDuplicate(db: Db, caller: Uuid, now: int, faults: AddFaults)
    requires caller in db.students && Nil in db.sessions
    requires faults.student.None? && faults.session.None? && faults.existing.None?
    ensures var r := Add(db, caller, Nil, now, faults);
            r == Outcome(db, Err(Internal(Plain("You have already enroll this session"), Name, "Add/ValidationSession")))
  {
  }

  /** When both the window and the program check fail, the window is
      reported: it is checked first. */
  lemma WindowReportedBeforeProgram(db: Db, caller: Uuid, sessionId: Uuid, now: int, faults: AddFaults)
    requires caller in db.students && sessionId in db.sessions && sessionId != Nil
    requires !HasRow(db, sessionId, caller)
    requires db.sessions[sessionId].intakeId in db.intakes
    requires !InWindow(now, db.intakes[db.sessions[sessionId].intakeId].startDate)
    requires db.sessions[sessionId].programId != db.students[caller].programId
    requires NoFaults(faults)
    ensures var r := Add(db, caller, sessionId, now, faults);
            r == Outcome(db, Err(Internal(Plain("Invalid Time To Enroll"), Name, "Add/ValidationDate")))
  {
    var existing := EnrollModel.GetOneBySessionAndStudent(db, sessionId, caller);
    assert existing.Err?;
  }

  /** Inside the window, a session of another program is refused. */
  lemma OtherProgramRefused(db: Db, caller: Uuid, sessionId: Uuid, now: int, faults: AddFaults)
    requires caller in db.students && sessionId in db.sessions && sessionId != Nil
    requires !HasRow(db, sessionId, caller)
    requires db.sessions[sessionId].intakeId in db.intakes
    requires InWindow(now, db.intakes[db.sessions[sessionId].intakeId].startDate)
    requires db.sessions[sessionId].programId != db.students[caller].programId
    requires NoFaults(faults)
    ensures var r := Add(db, caller, sessionId, now, faults);
            r == Outcome(db, Err(Internal(Plain("This Session Is Not For Your Program"), Name, "Add/ValidationProgram")))
  {
    var existing := EnrollModel.GetOneBySessionAndStudent(db, sessionId, caller);
    assert existing.Err?;
  }

  /** With every other condition met, `Add` accepts exactly from five
      days before the intake start to one second before it. */
  lemma WindowIsInclusive(db: Db, caller: Uuid, sessionId: Uuid, now: int)
    requires caller in db.students && sessionId in db.sessions && sessionId != Nil
    requires !HasRow(db, sessionId, caller)
    requires db.sessions[sessionId].intakeId in db.intakes
    requires db.sessions[sessionId].programId == db.students[caller].programId
    ensures var start := db.intakes[db.sessions[sessionId].intakeId].startDate;
            var none := AddFaults(None, None, None, None, None, None, None);
            Add(db, caller, sessionId, now, none).reply.Ok? <==> start - 5 * Day <= now <= start - 1
  {
  }

  /** The placeholder result belongs to the new enrolment, which has a
      fresh id. */
  lemma PlaceholderPointsAtNewEnrollment(db: Db, caller: Uuid, sessionId: Uuid, now: int, faults: AddFaults)
    requires Valid(db)
    ensures var r := Add(db, caller, sessionId, now, faults);
            r.reply.Ok? ==>
              && Valid(r.db)
              && r.db.results[|db.results|].studentEnrollId == r.reply.value.id
              && r.reply.value.id != Nil
              && forall i :: 0 <= i < |db.enrolls| ==> db.enrolls[i].id != r.reply.value.id
  {
    var r := Add(db, caller, sessionId, now, faults);
    if r.reply.Ok? {
      var (db1, enroll) := EnrollModel.Insert(db, sessionId, caller, caller);
      var (db2, placeholder) := ResultModel.Insert(db1, enroll.id, "", 0, caller);
      assert r.db == db2;
    }
  }

  /** A failure after the enrolment insert leaves the enrolment in
      place: the handler has no transaction. */
  lemma LateFailureKeepsEnrollment(db: Db, caller: Uuid, sessionId: Uuid, now: int, c: Cause)
    requires Eligible(db, caller, sessionId, now)
    ensures var late := AddFaults(None, None, None, None, None, Some(c), None);
            var r := Add(db, caller, sessionId, now, late);
            r.reply.Err? && Enrolled(db, r.db, caller, sessionId) && r.db.results == db.results
  {
    var existing := EnrollModel.GetOneBySessionAndStudent(db, sessionId, caller);
    assert existing.Err?;
  }

  // ------------------------------------------------------------ Delete

  /** Which statement of `Delete` the driver fails. */
  datatype DeleteFaults = DeleteFaults(enrollDelete: Option<Cause>, query: Option<Cause>, resultDelete: LoopFault)

  /** The listing `Delete` walks: up to 999 results of the enrolment,
      deleted ones included; with a nil id, of every enrolment. */
  function Targets(db: Db, id: Uuid): (t: seq<ResultRow>)
    ensures |t| <= 999
    ensures forall i :: 0 <= i < |t| ==> t[i] in db.results && (id != Nil ==> t[i].studentEnrollId == id)
    ensures |db.results| <= 999 ==>
              forall j :: 0 <= j < |db.results| && (id == Nil || db.results[j].studentEnrollId == id) ==>
                db.results[j] in t
  {
    ResultModel.GetAllByStudentEnroll(db, RequestParser.Paging(999, "asc").(studentEnrollId := id)).value
  }

  function Ids(rows: seq<ResultRow>): (ids: seq<Uuid>)
    ensures |ids| == |rows| && forall i :: 0 <= i < |rows| ==> ids[i] == rows[i].id
  {
    Map(rows, (row: ResultRow) => row.id)
  }

  /** `(*ResultModel).Delete` applied to each id in turn. */
  function DeleteResults(db: Db, ids: seq<Uuid>, actor: Uuid): (r: Db)
    ensures |r.results| == |db.results| && r == db.(results := r.results)
    ensures forall j :: 0 <= j < |db.results| && db.results[j].id in ids ==>
              r.results[j] == db.results[j].(isDelete := true, updatedBy := Some(actor))
    ensures forall j :: 0 <= j < |db.results| && db.results[j].id !in ids ==> r.results[j] == db.results[j]
    decreases |ids|
  {
    if |ids| == 0 then db
    else
      var front := ids[..|ids| - 1];
      assert ids == front + [ids[|ids| - 1]];
      ResultModel.Delete(DeleteResults(db, front, actor), ids[|ids| - 1], actor)
  }

  /** One more iteration of the cascade is one more `Delete`. */
  lemma DeleteResultsStep(db: Db, ids: seq<Uuid>, i: nat, actor: Uuid)
    requires i < |ids|
    ensures DeleteResults(db, ids[..i + 1], actor) == ResultModel.Delete(DeleteResults(db, ids[..i], actor), ids[i], actor)
  {
    assert ids[..i + 1][..i] == ids[..i];
  }

  /** `StudentEnrollModule.Delete`: withdraw the enrolment, list its
      results, soft-delete them one by one.  The first failing statement
      ends the handler and whatever was already written stays. */
  method Delete(db: Db, caller: Uuid, id: Uuid, faults: DeleteFaults) returns (r: Outcome<()>)
    ensures faults.enrollDelete.Some? ==>
              r.db == db && r.reply == Err(Internal(faults.enrollDelete.value, Name, "Delete/Delete"))
    ensures faults.enrollDelete.None? && faults.query.Some? ==>
              r.db == EnrollModel.Delete(db, id, caller)
              && r.reply == Err(Internal(faults.query.value, Name, "Delete/GetAllResultByStudentEnroll"))
    ensures faults.enrollDelete.None? && faults.query.None? ==>
              var withdrawn := EnrollModel.Delete(db, id, caller);
              var targets := Targets(withdrawn, id);
              var k := Completed(|targets|, faults.resultDelete);
              && r.db == DeleteResults(withdrawn, Ids(targets)[..k], caller)
              && (r.reply.Ok? <==> k == |targets|)
              && (r.reply.Err? ==> r.reply.error == Internal(faults.resultDelete.cause, Name, "Add/ResultDelete"))
  {
    if faults.enrollDelete.Some? {
      return Outcome(db, Err(Internal(faults.enrollDelete.value, Name, "Delete/Delete")));
    }
    var withdrawn := EnrollModel.Delete(db, id, caller);
    if faults.query.Some? {
      return Outcome(withdrawn, Err(Internal(faults.query.value, Name, "Delete/GetAllResultByStudentEnroll")));
    }
    var targets := Targets(withdrawn, id);
    var ids := Ids(targets);
    var cur := withdrawn;
    var i := 0;
    while i < |targets|
      invariant 0 <= i <= |targets|
      invariant i <= Completed(|targets|, faults.resultDelete)
      invariant cur == DeleteResults(withdrawn, ids[..i], caller)
    {
      if faults.resultDelete.FailAt? && faults.resultDelete.index == i {
        return Outcome(cur, Err(Internal(faults.resultDelete.cause, Name, "Add/ResultDelete")));
      }
      DeleteResultsStep(withdrawn, ids, i, caller);
      cur := ResultModel.Delete(cur, ids[i], caller);
      i := i + 1;
    }
    assert ids[..|targets|] == ids;
    return Outcome(cur, Ok(()));
  }

  /** With nothing failing and at most 999 results in the table, every
      result of the withdrawn enrolment ends up deleted and no longer
      appears in `GetAllResult`. */
  lemma CascadeDeletesEveryResult(db: Db, id: Uuid, actor: Uuid, f: RequestParser.Filter)
    requires |db.results| <= 999
    ensures var withdrawn := EnrollModel.Delete(db, id, actor);
            var db2 := DeleteResults(withdrawn, Ids(Targets(withdrawn, id)), actor);
            forall j :: 0 <= j < |db.results| && db.results[j].studentEnrollId == id ==>
              db2.results[j].isDelete && db2.results[j].updatedBy == Some(actor)
    ensures var withdrawn := EnrollModel.Delete(db, id, actor);
            var db2 := DeleteResults(withdrawn, Ids(Targets(withdrawn, id)), actor);
            ResultModel.GetAll(db2, f).Ok? ==>
              forall i :: 0 <= i < |ResultModel.GetAll(db2, f).value| ==>
                ResultModel.GetAll(db2, f).value[i].studentEnrollId != id
  {
    var withdrawn := EnrollModel.Delete(db, id, actor);
    var targets := Targets(withdrawn, id);
    var ids := Ids(targets);
    forall j | 0 <= j < |db.results| && db.results[j].studentEnrollId == id
      ensures db.results[j].id in ids
    {
      assert withdrawn.results[j] in targets;
      var k :| 0 <= k < |targets| && targets[k] == withdrawn.results[j];
      assert ids[k] == db.results[j].id;
    }
    var db2 := DeleteResults(withdrawn, ids, actor);
    assert withdrawn.results == db.results;
    var listed := ResultModel.GetAll(db2, f);
    if listed.Ok? {
      forall i | 0 <= i < |listed.value|
        ensures listed.value[i].studentEnrollId != id
      {
        var row := listed.value[i];
        assert row in db2.results && !row.isDelete;
        var j :| 0 <= j < |db2.results| && db2.results[j] == row;
        assert db2.results[j].studentEnrollId == db.results[j].studentEnrollId;
      }
    }
  }

  /** With a nil id nothing is withdrawn in a valid store, yet the
      listing has no enrolment condition, so the cascade deletes every
      result (when there are at most 999). */
  lemma NilIdDeletesAllResults(db: Db, actor: Uuid)
    requires Valid(db) && |db.results| <= 999
    ensures var withdrawn := EnrollModel.Delete(db, Nil, actor);
            var db2 := DeleteResults(withdrawn, Ids(Targets(withdrawn, Nil)), actor);
            withdrawn == db
            && forall j :: 0 <= j < |db.results| ==> db2.results[j].isDelete
  {
    var withdrawn := EnrollModel.Delete(db, Nil, actor);
    assert withdrawn.enrolls == db.enrolls;
    var targets := Targets(withdrawn, Nil);
    var ids := Ids(targets);
    forall j | 0 <= j < |db.results|
      ensures db.results[j].id in ids
    {
      assert withdrawn.results[j] in targets;
      var k :| 0 <= k < |targets| && targets[k] == withdrawn.results[j];
      assert ids[k] == db.results[j].id;
    }
  }
}
