/** api/api.intake.go: adding and updating an intake.  The month must be
    one of the three intake months; it is checked before anything is
    written, and the trimester stored with it is derived from it. */
module IntakeApi {

  import opened Prelude
  import opened Errors
  import opened Store
  import Util

  /** `IntakeModule.name`. */
  const Name: string := "module/intake"

  /** The fields of `IntakeAddParam` and `IntakeUpdateParam` besides the
      id; dates are in seconds. */
  datatype IntakeParam = IntakeParam(year: string, month: int, startDate: int, endDate: int)

  /** The months an intake may start in: April, July and November. */
  predicate IntakeMonth(month: int) {
    month == 4 || month == 7 || month == 11
  }

  /** The 400 answer to any other month; `suffix` is the handler's tag. */
  function MonthRefused(suffix: string): Error {
    ErrorWrap(Some(Plain("Invalid Month")), Name, suffix, IncorrectMonthMessage, StatusBadRequest)
  }

  /** The row `(*IntakeModel).Insert` stores: the parameters as given,
      the derived trimester, the column default `is_delete = false`. */
  function NewIntake(p: IntakeParam, createdBy: Uuid): (row: IntakeRow)
    ensures row.year == p.year && row.month == p.month && row.startDate == p.startDate && row.endDate == p.endDate
    ensures row.trimester == Util.GetTrimester(p.month) && row.createdBy == createdBy
    ensures !row.isDelete && row.updatedBy.None?
  {
    IntakeRow(p.year, p.month, Util.GetTrimester(p.month), p.startDate, p.endDate, false, createdBy, None)
  }

  /** `IntakeModule.Add`.  `createdBy` is a freshly generated UUID, not
      the caller; `fault` is a failing INSERT. */
  function Add(db: Db, p: IntakeParam, createdBy: Uuid, fault: Option<Cause>): (r: Outcome<(Uuid, IntakeRow)>)
    ensures !IntakeMonth(p.month) ==> r == Outcome(db, Err(MonthRefused("Add/Month")))
    ensures IntakeMonth(p.month) && fault.Some? ==> r == Outcome(db, Err(Internal(fault.value, Name, "Add/Insert")))
    ensures r.reply.Ok? <==> IntakeMonth(p.month) && fault.None?
    ensures r.reply.Ok? ==>
              var (id, row) := r.reply.value;
              && 1 <= row.trimester <= 3 && Util.TrimesterMonth(row.trimester) == p.month
              && row == NewIntake(p, createdBy)
              && r.db == db.(intakes := db.intakes[id := row], nextId := db.nextId + 1)
              && (Valid(db) ==> id !in db.intakes && Valid(r.db))
  {
    if !IntakeMonth(p.month) then Outcome(db, Err(MonthRefused("Add/Month")))
    else if fault.Some? then Outcome(db, Err(Internal(fault.value, Name, "Add/Insert")))
    else
      var (id, db1) := NewId(db);
      var row := NewIntake(p, createdBy);
      Util.TrimesterRoundTrip(p.month, row.trimester);
      Outcome(db1.(intakes := db1.intakes[id := row]), Ok((id, row)))
  }

  /** `(*IntakeModel).Update`: the given columns and `updated_by` of the
      row with the id; creator and deletion flag stay.  An id with no row
      makes the `RETURNING` scan fail with `sql.ErrNoRows`. */
  function Update(db: Db, caller: Uuid, id: Uuid, p: IntakeParam, fault: Option<Cause>): (r: Outcome<IntakeRow>)
    ensures !IntakeMonth(p.month) ==> r == Outcome(db, Err(MonthRefused("Update/Month")))
    ensures IntakeMonth(p.month) && fault.Some? ==> r == Outcome(db, Err(Internal(fault.value, Name, "Update/Update")))
    ensures IntakeMonth(p.month) && fault.None? && id !in db.intakes ==>
              r == Outcome(db, Err(Internal(NoRows, Name, "Update/Update")))
    ensures r.reply.Ok? <==> IntakeMonth(p.month) && fault.None? && id in db.intakes
    ensures r.reply.Ok? ==>
              var row := r.reply.value;
              && 1 <= row.trimester <= 3 && Util.TrimesterMonth(row.trimester) == p.month
              && row == NewIntake(p, db.intakes[id].createdBy).(isDelete := db.intakes[id].isDelete, updatedBy := Some(caller))
              && r.db == db.(intakes := db.intakes[id := row])
  {
    if !IntakeMonth(p.month) then Outcome(db, Err(MonthRefused("Update/Month")))
    else if fault.Some? then Outcome(db, Err(Internal(fault.value, Name, "Update/Update")))
    else if id !in db.intakes then Outcome(db, Err(Internal(NoRows, Name, "Update/Update")))
    else
      var prior := db.intakes[id];
      var row := prior.(year := p.year, month := p.month, trimester := Util.GetTrimester(p.month),
                      startDate := p.startDate, endDate := p.endDate, updatedBy := Some(caller));
      Util.TrimesterRoundTrip(p.month, row.trimester);
      Outcome(db.(intakes := db.intakes[id := row]), Ok(row))
  }

  // ------------------------------------------------------------ lemmas

  /** Every stored intake starts in an intake month and carries the
      trimester of that month, so the month can be read back from the
      trimester.  Both handlers keep this invariant of the table. */
  predicate Consistent(db: Db) {
    forall id :: id in db.intakes ==>
      IntakeMonth(db.intakes[id].month) && 1 <= db.intakes[id].trimester <= 3
      && Util.TrimesterMonth(db.intakes[id].trimester) == db.intakes[id].month
  }

  lemma AddKeepsConsistent(db: Db, p: IntakeParam, createdBy: Uuid, fault: Option<Cause>)
    requires Consistent(db)
    ensures Consistent(Add(db, p, createdBy, fault).db)
  {
    var r := Add(db, p, createdBy, fault);
    if r.reply.Ok? {
      var (id, row) := r.reply.value;
      forall x | x in r.db.intakes
        ensures IntakeMonth(r.db.intakes[x].month) && 1 <= r.db.intakes[x].trimester <= 3
                && Util.TrimesterMonth(r.db.intakes[x].trimester) == r.db.intakes[x].month
      {
        if x != id {
          assert r.db.intakes[x] == db.intakes[x];
        }
      }
    }
  }

  lemma UpdateKeepsConsistent(db: Db, caller: Uuid, id: Uuid, p: IntakeParam, fault: Option<Cause>)
    requires Consistent(db)
    ensures Consistent(Update(db, caller, id, p, fault).db)
  {
    var r := Update(db, caller, id, p, fault);
    if r.reply.Ok? {
      forall x | x in r.db.intakes
        ensures IntakeMonth(r.db.intakes[x].month) && 1 <= r.db.intakes[x].trimester <= 3
                && Util.TrimesterMonth(r.db.intakes[x].trimester) == r.db.intakes[x].month
      {
        if x != id {
          assert r.db.intakes[x] == db.intakes[x];
        }
      }
    }
  }

  /** An added intake is what the enrolment engine's lookup then finds:
      the start date it measures the enrolment window from is the one
      given. */
  lemma AddThenLookup(db: Db, p: IntakeParam, createdBy: Uuid)
    requires IntakeMonth(p.month)
    ensures var r := Add(db, p, createdBy, None);
            var id := r.reply.value.0;
            Lookup(r.db.intakes, id, None) == Ok(NewIntake(p, createdBy))
            && Lookup(r.db.intakes, id, None).value.startDate == p.startDate
  {
  }

  /** An update moves the window of every later enrolment into the
      sessions of the intake: the lookup now answers the new start
      date, and nothing but this intake changed. */
  lemma UpdateThenLookup(db: Db, caller: Uuid, id: Uuid, p: IntakeParam, other: Uuid)
    requires IntakeMonth(p.month) && id in db.intakes && other != id
    ensures var r := Update(db, caller, id, p, None);
            && Lookup(r.db.intakes, id, None).value.startDate == p.startDate
            && Lookup(r.db.intakes, other, None) == Lookup(db.intakes, other, None)
            && r.db.(intakes := db.intakes) == db
  {
  }
}
