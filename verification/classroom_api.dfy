/** api/api.classroom.go: `ClassroomModule.Add` names a new room after its
    faculty, its floor and its number, and stores it. */
module ClassroomApi {

  import opened Prelude
  import opened Errors
  import opened Decimal
  import Tables = Store

  /** `ClassroomModule.name`. */
  const Name: string := "module/classroom"

  /** The faculty columns the handler reads. */
  datatype Faculty = Faculty(code: int, abbreviation: string)

  /** A row of `classroom`. */
  datatype Classroom = Classroom(id: Uuid, facultyId: Uuid, floor: int, roomNo: int, code: string, createdBy: Uuid)

  /** `ClassroomAddParam`. */
  datatype ClassroomParam = ClassroomParam(facultyId: Uuid, floor: int, roomNo: int)

  /** Driver failures of the faculty lookup, the insert and the response
      assembly. */
  datatype ClassroomFaults = ClassroomFaults(faculty: Option<Cause>, insert: Option<Cause>, response: Option<Cause>)

  /** `fmt.Sprintf("%s%d%s", abbreviation, floor, fmt.Sprintf("%03d", roomNo))`.
      The abbreviation comes first, the floor follows in decimal, and the
      room number, padded to three characters, closes the code. */
  function RoomCode(abbreviation: string, floor: int, roomNo: int): (c: string)
    ensures |c| == |abbreviation| + |IntToDec(floor)| + |Pad3(roomNo)|
    ensures c[..|abbreviation|] == abbreviation
    ensures ParseInt(c[|abbreviation|..|abbreviation| + |IntToDec(floor)|]) == Some(floor)
    ensures ParseInt(c[|abbreviation| + |IntToDec(floor)|..]) == Some(roomNo)
    ensures 0 <= roomNo <= 999 ==> |c| == |abbreviation| + |IntToDec(floor)| + 3
  {
    var c := abbreviation + IntToDec(floor) + Pad3(roomNo);
    assert c[|abbreviation|..|abbreviation| + |IntToDec(floor)|] == IntToDec(floor);
    assert c[|abbreviation| + |IntToDec(floor)|..] == Pad3(roomNo);
    ParseIntOfIntToDec(floor);
    Pad3RoundTrip(roomNo);
    c
  }

  /** Within one faculty, rooms numbered 0 to 999 get distinct codes:
      the code gives back the floor and the room number. */
  lemma RoomCodeInjective(abbreviation: string, f1: int, r1: int, f2: int, r2: int)
    requires 0 <= r1 <= 999 && 0 <= r2 <= 999
    requires RoomCode(abbreviation, f1, r1) == RoomCode(abbreviation, f2, r2)
    ensures f1 == f2 && r1 == r2
  {
    var c := RoomCode(abbreviation, f1, r1);
    assert |IntToDec(f1)| == |IntToDec(f2)|;
    assert ParseInt(c[|abbreviation|..|abbreviation| + |IntToDec(f1)|]) == Some(f2);
    assert ParseInt(c[|abbreviation| + |IntToDec(f1)|..]) == Some(r2);
  }

  /** A room number past 999 takes four characters and runs into the
      floor: room 1234 on floor 1 and room 234 on floor 11 share a code. */
  lemma RoomCodeCollides(abbreviation: string)
    ensures RoomCode(abbreviation, 1, 1234) == RoomCode(abbreviation, 11, 234)
  {
    assert NatToDec(12) == NatToDec(1) + [DigitChar(2)];
    assert NatToDec(123) == NatToDec(12) + [DigitChar(3)];
    assert NatToDec(1234) == NatToDec(123) + [DigitChar(4)];
    assert NatToDec(23) == NatToDec(2) + [DigitChar(3)];
    assert NatToDec(234) == NatToDec(23) + [DigitChar(4)];
    assert NatToDec(11) == NatToDec(1) + [DigitChar(1)];
    assert Pad3(1234) == NatToDec(1234);
    assert Pad3(234) == NatToDec(234);
    assert IntToDec(1) + Pad3(1234) == IntToDec(11) + Pad3(234);
  }

  /** `ClassroomModule.Add`: look up the faculty, build the code, insert
      the row created by the caller.  A failing lookup writes nothing; a
      failing response assembly comes after the insert. */
  function Add(rooms: seq<Classroom>, faculties: map<Uuid, Faculty>, caller: Uuid, p: ClassroomParam,
               newId: Uuid, faults: ClassroomFaults): (r: (seq<Classroom>, Result<Classroom, Error>))
    ensures faults.faculty.Some? || p.facultyId !in faculties ==>
              r.0 == rooms && r.1.Err? && r.1.error == Internal(Tables.Lookup(faculties, p.facultyId, faults.faculty).error, Name, "Add/GetOneFaculty")
    ensures r.1.Ok? <==> faults.faculty.None? && p.facultyId in faculties && faults.insert.None? && faults.response.None?
    ensures r.1.Err? ==> r.1.error.statusCode == StatusInternalServerError && r.1.error.message == InternalServerError
    ensures faults.faculty.None? && p.facultyId in faculties && faults.insert.None? ==>
              && |r.0| == |rooms| + 1 && r.0[..|rooms|] == rooms
              && r.0[|rooms|].facultyId == p.facultyId && r.0[|rooms|].floor == p.floor && r.0[|rooms|].roomNo == p.roomNo
              && r.0[|rooms|].code == RoomCode(faculties[p.facultyId].abbreviation, p.floor, p.roomNo)
              && r.0[|rooms|].createdBy == caller && r.0[|rooms|].id == newId
    ensures faults.insert.Some? ==> r.0 == rooms
    ensures r.1.Ok? ==> r.1.value == r.0[|rooms|]
  {
    var faculty := Tables.Lookup(faculties, p.facultyId, faults.faculty);
    if faculty.Err? then (rooms, Err(Internal(faculty.error, Name, "Add/GetOneFaculty")))
    else
      var row := Classroom(newId, p.facultyId, p.floor, p.roomNo,
                           RoomCode(faculty.value.abbreviation, p.floor, p.roomNo), caller);
      if faults.insert.Some? then (rooms, Err(Internal(faults.insert.value, Name, "Add/Insert")))
      else if faults.response.Some? then (rooms + [row], Err(Internal(faults.response.value, Name, "Add/Response")))
      else (rooms + [row], Ok(row))
  }

  /** Two rooms of one faculty added with numbers 0 to 999 get the same
      code only when floor and number agree. */
  lemma AddedCodesDistinct(rooms: seq<Classroom>, faculties: map<Uuid, Faculty>, caller: Uuid,
                           p: ClassroomParam, q: ClassroomParam, id1: Uuid, id2: Uuid)
    requires p.facultyId == q.facultyId
    requires 0 <= p.roomNo <= 999 && 0 <= q.roomNo <= 999
    requires (p.floor, p.roomNo) != (q.floor, q.roomNo)
    ensures var first := Add(rooms, faculties, caller, p, id1, ClassroomFaults(None, None, None));
            var second := Add(first.0, faculties, caller, q, id2, ClassroomFaults(None, None, None));
            first.1.Ok? && second.1.Ok? ==> first.1.value.code != second.1.value.code
  {
    var first := Add(rooms, faculties, caller, p, id1, ClassroomFaults(None, None, None));
    var second := Add(first.0, faculties, caller, q, id2, ClassroomFaults(None, None, None));
    if first.1.Ok? && second.1.Ok? && first.1.value.code == second.1.value.code {
      RoomCodeInjective(faculties[p.facultyId].abbreviation, p.floor, p.roomNo, q.floor, q.roomNo);
    }
  }
}
