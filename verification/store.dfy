/** The relational store under the core: the four tables the enrollment
    engine writes (student_enroll, result, attendance, class), the columns
    of the student, session and intake tables it reads, and the id
    generator behind the `RETURNING id` of every INSERT.  Each SQL
    statement of the model files is a function over this value. */
module Store {

  import opened Prelude
  import opened Errors
  import opened Seqs
  import RequestParser

  /** A row of `student_enroll`; `updatedBy` is the nullable column. */
  datatype EnrollRow = EnrollRow(
    id: Uuid,
    sessionId: Uuid,
    studentId: Uuid,
    isDelete: bool,
    createdBy: Uuid,
    updatedBy: Option<Uuid>)

  /** A row of `result`. */
  datatype ResultRow = ResultRow(
    id: Uuid,
    studentEnrollId: Uuid,
    grade: string,
    marks: int,
    isDelete: bool,
    createdBy: Uuid,
    updatedBy: Option<Uuid>)

  /** A row of `attendance`. */
  datatype AttendanceRow = AttendanceRow(
    id: Uuid,
    studentId: Uuid,
    classId: Uuid,
    isAttend: bool,
    createdBy: Uuid,
    updatedBy: Option<Uuid>)

  /** A row of `class`; `date` is in seconds. */
  datatype ClassRow = ClassRow(
    id: Uuid,
    sessionId: Uuid,
    date: int,
    isDelete: bool,
    createdBy: Uuid)

  /** The columns of `student` and `session` that the enrolment engine
      reads; those tables are keyed by id and only ever looked up. */
  datatype StudentRow = StudentRow(programId: Uuid, name: string)
  datatype SessionRow = SessionRow(programId: Uuid, intakeId: Uuid, subjectId: Uuid)

  /** A row of `intake`, keyed by its id: the enrolment engine reads its
      start date, the intake handlers write it. */
  datatype IntakeRow = IntakeRow(
    year: string,
    month: int,
    trimester: int,
    startDate: int,
    endDate: int,
    isDelete: bool,
    createdBy: Uuid,
    updatedBy: Option<Uuid>)

  /** The database.  `attendDefault` is the column default of
      `attendance.is_attend`; `nextId` is the id the next INSERT
      receives. */
  datatype Db = Db(
    enrolls: seq<EnrollRow>,
    results: seq<ResultRow>,
    attendances: seq<AttendanceRow>,
    classes: seq<ClassRow>,
    students: map<Uuid, StudentRow>,
    sessions: map<Uuid, SessionRow>,
    intakes: map<Uuid, IntakeRow>,
    attendDefault: bool,
    nextId: nat)

  /** The store after a handler ran, and what the handler returned: its
      data or the `*helpers.Error`. */
  datatype Outcome<+T> = Outcome(db: Db, reply: Result<T, Error>)

  /** A driver failure inside a loop of statements: `FailAt(k, c)` makes
      the statement of iteration `k` fail with `c`. */
  datatype LoopFault = NoLoopFault | FailAt(index: nat, cause: Cause)

  /** How many iterations of an `n`-step loop complete before the
      fault stops it. */
  function Completed(n: nat, fault: LoopFault): (k: nat)
    ensures k <= n
    ensures k < n <==> fault.FailAt? && fault.index < n
    ensures k < n ==> k == fault.index
  {
    if fault.FailAt? && fault.index < n then fault.index else n
  }

  /** Every stored id was handed out by the generator: it is not nil and
      is below `nextId`, so the next id is fresh. */
  predicate Valid(db: Db) {
    && db.nextId > Nil
    && (forall i :: 0 <= i < |db.enrolls| ==> Nil < db.enrolls[i].id < db.nextId)
    && (forall i :: 0 <= i < |db.results| ==> Nil < db.results[i].id < db.nextId)
    && (forall i :: 0 <= i < |db.attendances| ==> Nil < db.attendances[i].id < db.nextId)
    && (forall i :: 0 <= i < |db.classes| ==> Nil < db.classes[i].id < db.nextId)
    && (forall id :: id in db.intakes ==> Nil < id < db.nextId)
  }

  /** The id an INSERT receives from `RETURNING id`, and the store with
      the generator advanced. */
  function NewId(db: Db): (r: (Uuid, Db))
    ensures r.1 == db.(nextId := db.nextId + 1)
    ensures Valid(db) ==> r.0 != Nil
    ensures Valid(db) ==> forall i :: 0 <= i < |db.enrolls| ==> db.enrolls[i].id != r.0
    ensures Valid(db) ==> forall i :: 0 <= i < |db.results| ==> db.results[i].id != r.0
    ensures Valid(db) ==> forall i :: 0 <= i < |db.attendances| ==> db.attendances[i].id != r.0
    ensures Valid(db) ==> forall i :: 0 <= i < |db.classes| ==> db.classes[i].id != r.0
    ensures Valid(db) ==> r.0 !in db.intakes
  {
    (db.nextId, db.(nextId := db.nextId + 1))
  }

  /** The driver error PostgreSQL reports for a negative LIMIT or OFFSET. */
  function PageError(limit: int, offset: int): Cause
    requires limit < 0 || offset < 0
  {
    if limit < 0 then Plain("LIMIT must not be negative") else Plain("OFFSET must not be negative")
  }

  /** `SELECT … WHERE where LIMIT limit OFFSET offset`: the rows satisfying
      `where`, in table order, cut to the window. */
  function Select<T>(rows: seq<T>, where: T -> bool, limit: int, offset: int): (r: Result<seq<T>, Cause>)
    ensures r.Err? <==> limit < 0 || offset < 0
    ensures r.Ok? ==> |r.value| <= limit
    ensures r.Ok? ==> forall i :: 0 <= i < |r.value| ==> r.value[i] in rows && where(r.value[i])
    ensures r.Ok? && offset == 0 && |rows| <= limit ==>
              forall i :: 0 <= i < |rows| && where(rows[i]) ==> rows[i] in r.value
  {
    if limit < 0 || offset < 0 then Err(PageError(limit, offset))
    else
      var hits := Filter(rows, where);
      if offset == 0 && |rows| <= limit then WindowWhole(hits, limit); Ok(Window(hits, limit, offset))
      else Ok(Window(hits, limit, offset))
  }

  // ------------------------------------------------------------ formatted SQL text

  /** A sort direction formatted after `ORDER BY column` parses when it is
      empty or ASC or DESC in any letter case; any other text is taken to
      be a syntax error. */
  predicate SortParses(dir: string) {
    dir == "" || RequestParser.IsSortDir(dir)
  }

  /** Text formatted between the quotes of a string literal stays inside
      them when it holds no quote. */
  predicate LiteralParses(text: string) {
    forall i :: 0 <= i < |text| ==> text[i] != '\''
  }

  /** What the driver reports for a statement that does not parse. */
  const SyntaxError := Plain("syntax error")

  /** `Select` for a statement with caller text formatted into it:
      `parses` says whether the text leaves valid SQL, and when it does
      not the statement fails before the window is looked at. */
  function SelectFormatted<T>(parses: bool, rows: seq<T>, where: T -> bool, limit: int, offset: int): (r: Result<seq<T>, Cause>)
    ensures r.Err? <==> !parses || limit < 0 || offset < 0
    ensures !parses ==> r == Err(SyntaxError)
    ensures r.Ok? ==> |r.value| <= limit
    ensures r.Ok? ==> forall i :: 0 <= i < |r.value| ==> r.value[i] in rows && where(r.value[i])
    ensures r.Ok? && offset == 0 && |rows| <= limit ==>
              forall i :: 0 <= i < |rows| && where(rows[i]) ==> rows[i] in r.value
  {
    if !parses then Err(SyntaxError) else Select(rows, where, limit, offset)
  }

  /** A direction `ParseFilter` normalised always parses. */
  lemma NormalizedDirParses(decoded: RequestParser.Filter)
    ensures SortParses(RequestParser.ParseFilter(decoded, false).0.dir)
  {
  }

  /** A pattern character with no meaning to `LIKE`. */
  predicate PlainChar(c: char) {
    c != '%' && c != '_' && c != '\\'
  }

  /** `text LIKE pattern` with the default escape: `%` matches any run of
      characters, `_` any one character, a backslash makes the next
      pattern character literal, and every other character matches
      itself. */
  predicate Like(text: string, pattern: string)
    decreases |text| + |pattern|
  {
    if |pattern| == 0 then |text| == 0
    else if pattern[0] == '%' then Like(text, pattern[1..]) || (|text| > 0 && Like(text[1..], pattern))
    else if pattern[0] == '_' then |text| > 0 && Like(text[1..], pattern[1..])
    else if pattern[0] == '\\' && |pattern| >= 2 then |text| > 0 && text[0] == pattern[1] && Like(text[1..], pattern[2..])
    else |text| > 0 && text[0] == pattern[0] && Like(text[1..], pattern[1..])
  }

  /** `needle` occurs in `text` starting at position `k`. */
  predicate OccursAt(text: string, needle: string, k: int) {
    0 <= k <= |text| - |needle| && text[k..k + |needle|] == needle
  }

  /** `needle` occurs in `text` as a contiguous run. */
  predicate Contains(text: string, needle: string) {
    exists k :: 0 <= k <= |text| && OccursAt(text, needle, k)
  }

  /** A trailing `%` matches whatever follows. */
  lemma {:induction false} LikeAnyTail(text: string)
    ensures Like(text, "%")
    decreases |text|
  {
    if |text| > 0 {
      LikeAnyTail(text[1..]);
    }
  }

  /** A plain `needle` followed by `%` matches exactly the texts that
      start with `needle`. */
  lemma {:induction false} LikePrefix(text: string, needle: string)
    requires forall i :: 0 <= i < |needle| ==> PlainChar(needle[i])
    ensures Like(text, needle + "%") <==> |needle| <= |text| && text[..|needle|] == needle
    decreases |needle|
  {
    if |needle| == 0 {
      assert needle + "%" == "%";
      LikeAnyTail(text);
    } else {
      var p := needle + "%";
      assert p[0] == needle[0] && p[1..] == needle[1..] + "%";
      if |text| > 0 {
        LikePrefix(text[1..], needle[1..]);
        if |needle| <= |text| && text[..|needle|] == needle {
          assert text[1..][..|needle| - 1] == needle[1..];
        }
        if text[0] == needle[0] && |needle[1..]| <= |text[1..]| && text[1..][..|needle[1..]|] == needle[1..] {
          assert text[..|needle|] == [text[0]] + text[1..][..|needle[1..]|];
        }
      }
    }
  }

  /** A leading `%` matches when the rest of the pattern matches some
      suffix of the text. */
  lemma {:induction false} LikeLeading(text: string, rest: string)
    ensures Like(text, "%" + rest) <==> exists k :: 0 <= k <= |text| && Like(text[k..], rest)
    decreases |text|
  {
    var p := "%" + rest;
    assert p[1..] == rest;
    if Like(text, p) {
      if Like(text, rest) {
        assert text[0..] == text;
      } else {
        LikeLeading(text[1..], rest);
        var k :| 0 <= k <= |text[1..]| && Like(text[1..][k..], rest);
        assert text[1..][k..] == text[k + 1..];
      }
    }
    if exists k :: 0 <= k <= |text| && Like(text[k..], rest) {
      var k :| 0 <= k <= |text| && Like(text[k..], rest);
      if k > 0 {
        assert text[1..][k - 1..] == text[k..];
        LikeLeading(text[1..], rest);
      } else {
        assert text[0..] == text;
      }
    }
  }

  /** `LIKE '%needle%'` with a needle free of pattern characters is the
      substring test. */
  lemma LikeIsContains(text: string, needle: string)
    requires forall i :: 0 <= i < |needle| ==> PlainChar(needle[i])
    ensures Like(text, "%" + needle + "%") <==> Contains(text, needle)
  {
    assert "%" + needle + "%" == "%" + (needle + "%");
    LikeLeading(text, needle + "%");
    if Like(text, "%" + needle + "%") {
      var k :| 0 <= k <= |text| && Like(text[k..], needle + "%");
      LikePrefix(text[k..], needle);
      assert text[k..k + |needle|] == text[k..][..|needle|];
      assert OccursAt(text, needle, k);
    }
    if Contains(text, needle) {
      var k :| 0 <= k <= |text| && OccursAt(text, needle, k);
      LikePrefix(text[k..], needle);
      assert text[k..k + |needle|] == text[k..][..|needle|];
    }
  }

  /** A lookup by primary key (`GetOneStudent`, `GetOneSession`,
      `GetOneIntake`); `fault` is a driver error that replaces the
      answer. */
  function Lookup<T>(table: map<Uuid, T>, id: Uuid, fault: Option<Cause>): (r: Result<T, Cause>)
    ensures fault.Some? ==> r == Err(fault.value)
    ensures fault.None? ==> (r.Ok? <==> id in table)
    ensures r.Ok? ==> id in table && r.value == table[id]
    ensures fault.None? && r.Err? ==> r.error == NoRows
  {
    if fault.Some? then Err(fault.value)
    else if id in table then Ok(table[id])
    else Err(NoRows)
  }

  /** `QueryRow(…).Scan`: the first row satisfying `where`, or
      `sql.ErrNoRows`. */
  function SelectOne<T>(rows: seq<T>, where: T -> bool): (r: Result<T, Cause>)
    ensures r.Ok? ==> r.value in rows && where(r.value)
    ensures r.Err? <==> forall i :: 0 <= i < |rows| ==> !where(rows[i])
    ensures r.Err? ==> r.error == NoRows
  {
    match Find(rows, where)
    case None => Err(NoRows)
    case Some(k) => Ok(rows[k])
  }
}
