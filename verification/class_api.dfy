/** api/api.class.go: `ClassModule.Add` inserts a class and then one
    attendance row for every enrolment row the by-session listing returns,
    withdrawn enrolments included.  There is no transaction: the first
    failing statement ends the handler and what was written stays. */
module ClassApi {

  import opened Prelude
  import opened Errors
  import opened Store
  import EnrollModel
  import AttendanceModel
  import RequestParser

  /** `ClassModule.name`, the prefix of every error tag. */
  const Name: string := "module/class"

  /** The listing cap `ClassModule.Add` asks for. */
  const Cap: int := 999

  /** Which statement of `Add` the driver fails, and with what. */
  datatype ClassFaults = ClassFaults(
    classInsert: Option<Cause>,
    enrollQuery: Option<Cause>,
    attendance: LoopFault,
    response: Option<Cause>)

  /** `(*ClassModel).Insert`: one new class with the given session, date
      and creator, a fresh id and the column default `is_delete = false`;
      nothing else changes. */
  function InsertClass(db: Db, sessionId: Uuid, date: int, createdBy: Uuid): (r: (Db, ClassRow))
    ensures r.1.sessionId == sessionId && r.1.date == date && r.1.createdBy == createdBy && !r.1.isDelete
    ensures r.0.classes == db.classes + [r.1]
    ensures r.0 == db.(classes := r.0.classes, nextId := r.0.nextId)
    ensures Valid(db) ==> Valid(r.0) && r.1.id != Nil
    ensures Valid(db) ==> forall i :: 0 <= i < |db.classes| ==> db.classes[i].id != r.1.id
  {
    var (id, db1) := NewId(db);
    var row := ClassRow(id, sessionId, date, false, createdBy);
    (db1.(classes := db1.classes + [row]), row)
  }

  /** The enrolments `Add` walks: `GetAllStudentEnrollBySession` with limit
      999, offset 0 and the requested session, which has no `is_delete`
      condition and no session condition for the nil id. */
  function Roster(db: Db, sessionId: Uuid): (t: seq<EnrollRow>)
    ensures |t| <= Cap
    ensures forall i :: 0 <= i < |t| ==> t[i] in db.enrolls && (sessionId != Nil ==> t[i].sessionId == sessionId)
    ensures |db.enrolls| <= Cap ==>
              forall j :: 0 <= j < |db.enrolls| && (sessionId == Nil || db.enrolls[j].sessionId == sessionId) ==>
                db.enrolls[j] in t
  {
    EnrollModel.GetAllBySession(db, RequestParser.Paging(Cap, "asc").(sessionId := sessionId)).value
  }

  /** The attendance row the loop writes for `student` as its `k`-th
      insert, starting from a store whose next id is `base`. */
  function Expected(base: nat, k: nat, student: EnrollRow, classId: Uuid, isAttend: bool, actor: Uuid): AttendanceRow {
    AttendanceRow(base + k, student.studentId, classId, isAttend, actor, None)
  }

  /** `(*AttendanceModel).Insert` for each enrolment in turn.  The result
      is the store with exactly one attendance row per enrolment appended,
      in order, each naming the enrolment's student, the class and the
      actor. */
  function FanOut(db: Db, students: seq<EnrollRow>, classId: Uuid, actor: Uuid): (r: Db)
    ensures |r.attendances| == |db.attendances| + |students|
    ensures r.attendances[..|db.attendances|] == db.attendances
    ensures forall k :: 0 <= k < |students| ==>
              r.attendances[|db.attendances| + k] == Expected(db.nextId, k, students[k], classId, db.attendDefault, actor)
    ensures r == db.(attendances := r.attendances, nextId := db.nextId + |students|)
    decreases |students|
  {
    if |students| == 0 then db
    else
      var n := |students| - 1;
      var prev := FanOut(db, students[..n], classId, actor);
      AttendanceModel.Insert(prev, students[n].studentId, classId, actor).0
  }

  /** One more iteration of the fan-out is one more attendance insert. */
  lemma FanOutStep(db: Db, students: seq<EnrollRow>, i: nat, classId: Uuid, actor: Uuid)
    requires i < |students|
    ensures FanOut(db, students[..i + 1], classId, actor)
         == AttendanceModel.Insert(FanOut(db, students[..i], classId, actor), students[i].studentId, classId, actor).0
  {
    assert students[..i + 1][..i] == students[..i];
  }

  /** The attendance loop of `ClassModule.Add`: one insert per roster
      row, stopping at the first failing one.  `k` is how many inserts
      completed. */
  method InsertAttendances(db1: Db, roster: seq<EnrollRow>, classId: Uuid, caller: Uuid, fault: LoopFault)
    returns (cur: Db, k: nat)
    ensures k == Completed(|roster|, fault)
    ensures cur == FanOut(db1, roster[..k], classId, caller)
  {
    cur := db1;
    k := 0;
    while k < |roster|
      invariant 0 <= k <= |roster|
      invariant k <= Completed(|roster|, fault)
      invariant cur == FanOut(db1, roster[..k], classId, caller)
    {
      if fault.FailAt? && fault.index == k {
        return;
      }
      FanOutStep(db1, roster, k, classId, caller);
      cur := AttendanceModel.Insert(cur, roster[k].studentId, classId, caller).0;
      k := k + 1;
    }
  }

  /** `ClassModule.Add` for the caller `caller`. */
  method Add(db: Db, caller: Uuid, sessionId: Uuid, date: int, faults: ClassFaults) returns (r: Outcome<ClassRow>)
    ensures faults.classInsert.Some? ==>
              r == Outcome(db, Err(Internal(faults.classInsert.value, Name, "AddClass/Insert")))
    ensures faults.classInsert.None? && faults.enrollQuery.Some? ==>
              r == Outcome(InsertClass(db, sessionId, date, caller).0,
                           Err(Internal(faults.enrollQuery.value, Name, "Add/GetAllStudentEnrollBySession")))
    ensures faults.classInsert.None? && faults.enrollQuery.None? ==>
              var (db1, cls) := InsertClass(db, sessionId, date, caller);
              var roster := Roster(db1, sessionId);
              var k := Completed(|roster|, faults.attendance);
              && r.db == FanOut(db1, roster[..k], cls.id, caller)
              && (k < |roster| ==> r.reply == Err(Internal(faults.attendance.cause, Name, "Add/AttendanceInsert")))
              && (k == |roster| && faults.response.Some? ==>
                    r.reply == Err(Internal(faults.response.value, Name, "Add/Response")))
              && (r.reply.Ok? <==> k == |roster| && faults.response.None?)
              && (r.reply.Ok? ==> r.reply.value == cls)
  {
    if faults.classInsert.Some? {
      return Outcome(db, Err(Internal(faults.classInsert.value, Name, "AddClass/Insert")));
    }
    var (db1, cls) := InsertClass(db, sessionId, date, caller);
    if faults.enrollQuery.Some? {
      return Outcome(db1, Err(Internal(faults.enrollQuery.value, Name, "Add/GetAllStudentEnrollBySession")));
    }
    var roster := Roster(db1, sessionId);
    var cur, k := InsertAttendances(db1, roster, cls.id, caller, faults.attendance);
    if k < |roster| {
      return Outcome(cur, Err(Internal(faults.attendance.cause, Name, "Add/AttendanceInsert")));
    }
    if faults.response.Some? {
      return Outcome(cur, Err(Internal(faults.response.value, Name, "Add/Response")));
    }
    return Outcome(cur, Ok(cls));
  }

  // ------------------------------------------------------------ lemmas

  /** The fan-out keeps every id fresh: the rows it adds take the ids the
      generator hands out. */
  lemma FanOutKeepsValid(db: Db, students: seq<EnrollRow>, classId: Uuid, actor: Uuid)
    requires Valid(db)
    ensures Valid(FanOut(db, students, classId, actor))
  {
    var r := FanOut(db, students, classId, actor);
    forall i | 0 <= i < |r.attendances|
      ensures Nil < r.attendances[i].id < r.nextId
    {
      if i < |db.attendances| {
        assert r.attendances[i] == r.attendances[..|db.attendances|][i];
      } else {
        var k := i - |db.attendances|;
        assert r.attendances[|db.attendances| + k] == Expected(db.nextId, k, students[k], classId, db.attendDefault, actor);
      }
    }
  }

  /** Some attendance row from position `from` on records `studentId` in
      `classId`, created by `actor`. */
  predicate Attends(db: Db, from: nat, studentId: Uuid, classId: Uuid, actor: Uuid) {
    exists k :: from <= k < |db.attendances| && db.attendances[k].studentId == studentId
                && db.attendances[k].classId == classId && db.attendances[k].createdBy == actor
  }

  /** Each enrolment handed to the fan-out gets its attendance row. */
  lemma FanOutCovers(db: Db, students: seq<EnrollRow>, classId: Uuid, actor: Uuid, m: nat)
    requires m < |students|
    ensures Attends(FanOut(db, students, classId, actor), |db.attendances|, students[m].studentId, classId, actor)
  {
    var r := FanOut(db, students, classId, actor);
    assert r.attendances[|db.attendances| + m] == Expected(db.nextId, m, students[m], classId, db.attendDefault, actor);
  }

  /** With nothing failing and at most 999 enrolments in the store, every
      enrolment row of the session, withdrawn or not, gets an attendance
      row for its student in the new class, created by the caller. */
  lemma OneAttendancePerEnrollment(db: Db, caller: Uuid, sessionId: Uuid, date: int, j: nat)
    requires |db.enrolls| <= Cap
    requires j < |db.enrolls| && (sessionId == Nil || db.enrolls[j].sessionId == sessionId)
    ensures var (db1, cls) := InsertClass(db, sessionId, date, caller);
            Attends(FanOut(db1, Roster(db1, sessionId), cls.id, caller), |db.attendances|, db.enrolls[j].studentId, cls.id, caller)
  {
    var (db1, cls) := InsertClass(db, sessionId, date, caller);
    var roster := Roster(db1, sessionId);
    assert db1.enrolls == db.enrolls && db1.attendances == db.attendances;
    assert db.enrolls[j] in roster;
    var m :| 0 <= m < |roster| && roster[m] == db.enrolls[j];
    FanOutCovers(db1, roster, cls.id, caller, m);
  }

  /** Every attendance row the fan-out adds belongs to an enrolment row of
      the session and to the new class, and there are exactly as many as
      the listing returned, never more than 999. */
  lemma FanOutOnlyForRoster(db: Db, caller: Uuid, sessionId: Uuid, date: int)
    ensures var (db1, cls) := InsertClass(db, sessionId, date, caller);
            var roster := Roster(db1, sessionId);
            var db2 := FanOut(db1, roster, cls.id, caller);
            && |db2.attendances| == |db.attendances| + |roster| <= |db.attendances| + Cap
            && forall k :: |db.attendances| <= k < |db2.attendances| ==>
                 db2.attendances[k].classId == cls.id
                 && exists e :: e in db.enrolls && (sessionId != Nil ==> e.sessionId == sessionId)
                                && e.studentId == db2.attendances[k].studentId
  {
    var (db1, cls) := InsertClass(db, sessionId, date, caller);
    var roster := Roster(db1, sessionId);
    var db2 := FanOut(db1, roster, cls.id, caller);
    forall k | |db.attendances| <= k < |db2.attendances|
      ensures db2.attendances[k].classId == cls.id
      ensures exists e :: e in db.enrolls && (sessionId != Nil ==> e.sessionId == sessionId)
                          && e.studentId == db2.attendances[k].studentId
    {
      var m := k - |db.attendances|;
      assert db2.attendances[|db1.attendances| + m] == Expected(db1.nextId, m, roster[m], cls.id, db1.attendDefault, caller);
      assert roster[m] in db.enrolls;
    }
  }

  /** A withdrawn enrolment still receives an attendance row: the listing
      behind the fan-out does not look at `is_delete`. */
  lemma WithdrawnStudentsAttend(db: Db, caller: Uuid, date: int, j: nat)
    requires |db.enrolls| <= Cap && j < |db.enrolls| && db.enrolls[j].isDelete
    ensures var sessionId := db.enrolls[j].sessionId;
            var (db1, cls) := InsertClass(db, sessionId, date, caller);
            Attends(FanOut(db1, Roster(db1, sessionId), cls.id, caller), |db.attendances|, db.enrolls[j].studentId, cls.id, caller)
  {
    OneAttendancePerEnrollment(db, caller, db.enrolls[j].sessionId, date, j);
  }
}
