/** The pure helpers of util/util.go and models/util.go: grade banding,
    gender, weekday and trimester lookups, the two-digit year code and the
    random initial password. */
module Util {

  import opened Prelude
  import opened Decimal
  import opened Errors

  // ---------------------------------------------------------------- grades

  /** `GetGrade`: the letter for a mark.  Bands are checked top-down, and
      anything outside 40..100 (negative marks and marks above 100
      included) falls through to "F". */
  function GetGrade(marks: int): (g: string)
    ensures g == "A" <==> 75 <= marks <= 100
    ensures g == "B" <==> 60 <= marks < 75
    ensures g == "C" <==> 47 <= marks < 60
    ensures g == "D" <==> 40 <= marks < 47
    ensures g == "F" <==> marks < 40 || marks > 100
  {
    if marks <= 100 && marks >= 75 then "A"
    else if marks < 75 && marks >= 60 then "B"
    else if marks < 60 && marks >= 47 then "C"
    else if marks < 47 && marks >= 40 then "D"
    else "F"
  }

  /** The five letters the grading scale uses. */
  predicate IsLetter(g: string) {
    g == "A" || g == "B" || g == "C" || g == "D" || g == "F"
  }

  /** Position of a letter on the scale, worst first. */
  function Rank(g: string): nat
    requires IsLetter(g)
  {
    if g == "A" then 4 else if g == "B" then 3 else if g == "C" then 2 else if g == "D" then 1 else 0
  }

  /** Every mark, in range or not, gets one of the five letters. */
  lemma GradeIsLetter(marks: int)
    ensures IsLetter(GetGrade(marks))
  {
  }

  /** Within 0..100, more marks never earn a worse letter. */
  lemma GradeMonotone(m1: int, m2: int)
    requires 0 <= m1 <= m2 <= 100
    ensures Rank(GetGrade(m1)) <= Rank(GetGrade(m2))
  {
  }

  /** Above 100 the scale breaks: 101 marks grade below 100 marks. */
  lemma GradeAbove100IsF()
    ensures GetGrade(100) == "A" && GetGrade(101) == "F"
  {
  }

  // ---------------------------------------------------------------- gender

  /** `GetGender`: 0 and 1 name a gender; every other code is an error
      returned together with the empty string. */
  function GetGender(gender: int): (r: (string, Option<Cause>))
    ensures r.1.None? <==> gender == 0 || gender == 1
    ensures gender == 0 ==> r.0 == "Male"
    ensures gender == 1 ==> r.0 == "Female"
    ensures r.1.Some? ==> r.0 == "" && r.1.value == Plain("Invalid")
  {
    if gender == 0 then ("Male", None)
    else if gender == 1 then ("Female", None)
    else ("", Some(Plain("Invalid")))
  }

  /** `models.Gender`, a second copy of the same switch in the models
      package; it agrees with `GetGender` on every input. */
  function ModelsGender(gender: int): (r: (string, Option<Cause>))
    ensures r == GetGender(gender)
  {
    match gender
    case 0 => ("Male", None)
    case 1 => ("Female", None)
    case _ => ("", Some(Plain("Invalid")))
  }

  // ---------------------------------------------------------------- weekday

  const Weekdays: seq<string> := ["Monday", "Tuesday", "Wednesday", "Thursday", "Friday"]

  /** `GetDay`: 1..5 name Monday..Friday; 0, 6, 7 and every other value
      are "Invalid". */
  function GetDay(day: int): (r: string)
    ensures 1 <= day <= 5 ==> r == Weekdays[day - 1]
    ensures r == "Invalid" <==> !(1 <= day <= 5)
  {
    match day
    case 1 => "Monday"
    case 2 => "Tuesday"
    case 3 => "Wednesday"
    case 4 => "Thursday"
    case 5 => "Friday"
    case _ => "Invalid"
  }

  // ---------------------------------------------------------------- trimester

  /** `GetTrimester`: intake months April, July and November open
      trimesters 1, 2 and 3; any other month gives 0. */
  function GetTrimester(month: int): (t: int)
    ensures 0 <= t <= 3
    ensures t != 0 <==> month == 4 || month == 7 || month == 11
    ensures month == 4 ==> t == 1
    ensures month == 7 ==> t == 2
    ensures month == 11 ==> t == 3
  {
    match month
    case 4 => 1
    case 7 => 2
    case 11 => 3
    case _ => 0
  }

  /** The intake month that opens a trimester. */
  function TrimesterMonth(t: int): int
    requires 1 <= t <= 3
  {
    if t == 1 then 4 else if t == 2 then 7 else 11
  }

  /** `GetTrimester` is a bijection between the three intake months and
      the trimesters 1..3. */
  lemma TrimesterRoundTrip(month: int, t: int)
    ensures (month == 4 || month == 7 || month == 11) ==> TrimesterMonth(GetTrimester(month)) == month
    ensures 1 <= t <= 3 ==> GetTrimester(TrimesterMonth(t)) == t
  {
  }

  // ---------------------------------------------------------------- year code

  /** `GetYearCode` for the clock's `year`: characters 2 and 3 of the decimal
      form, read back as a number.  A year whose form has fewer than four
      characters makes the slice panic (`None`); the `Atoi` error branch of
      the source cannot be reached, because those two characters are always
      digits. */
  function GetYearCode(year: int): (r: Option<int>)
    ensures r.Some? <==> |IntToDec(year)| >= 4
    ensures r.Some? ==> 0 <= r.value <= 99
  {
    var a := IntToDec(year);
    if |a| < 4 then None
    else
      var code := a[2..4];
      assert AllDigits(code) by {
        forall k | 0 <= k < 2 ensures IsDigit(code[k]) {
          assert code[k] == a[2 + k];
        }
      }
      TwoDigitsBelow100(code);
      Some(ParseNat(code))
  }

  lemma TwoDigitsBelow100(s: string)
    requires |s| == 2 && AllDigits(s)
    ensures ParseNat(s) <= 99
  {
    ParseTwoDigits(s);
  }

  lemma ParseTwoDigits(s: string)
    requires |s| == 2 && AllDigits(s)
    ensures ParseNat(s) == 10 * DigitValue(s[0]) + DigitValue(s[1])
  {
    var head := s[..1];
    assert head[..0] == [];
    assert ParseNat(head) == DigitValue(s[0]);
    assert ParseNat(s) == 10 * ParseNat(head) + DigitValue(s[1]);
  }

  /** For a four-digit year the code is the year modulo 100, so a leading
      zero is lost: 2005 gives 5, not "05". */
  lemma YearCodeOfFourDigitYear(year: int)
    requires 1000 <= year <= 9999
    ensures GetYearCode(year) == Some(year % 100)
  {
    var a := NatToDec(year);
    var b := NatToDec(year / 10);
    var c := NatToDec(year / 100);
    assert |NatToDec(year / 1000)| == 1;
    assert c == NatToDec(year / 1000) + [DigitChar(year / 100 % 10)];
    assert |c| == 2;
    assert b == c + [DigitChar(year / 10 % 10)];
    assert a == b + [DigitChar(year % 10)];
    assert |a| == 4;
    var code := a[2..4];
    assert code == [DigitChar(year / 10 % 10), DigitChar(year % 10)];
    ParseTwoDigits(code);
    assert ParseNat(code) == 10 * (year / 10 % 10) + year % 10;
  }

  lemma YearCode2005()
    ensures GetYearCode(2005) == Some(5)
  {
    YearCodeOfFourDigitYear(2005);
  }

  // ---------------------------------------------------------------- random string

  /** The 62-character alphabet [a-zA-Z0-9] of the initial passwords. */
  const Letters: string := "abcdefghijklmnopqrstuvwxyzABCDEFGHIJKLMNOPQRSTUVWXYZ0123456789"

  /** `RandomString(n)`.  The pseudo-random source is a parameter: `draws[i]`
      is the value `rand.Intn(62)` returned for position `i`. */
  method RandomString(n: nat, draws: seq<int>) returns (s: string)
    requires |draws| == n
    requires forall i :: 0 <= i < n ==> 0 <= draws[i] < 62
    ensures |s| == n
    ensures forall i :: 0 <= i < n ==> s[i] == Letters[draws[i]]
    ensures forall i :: 0 <= i < n ==> s[i] in Letters
  {
    s := [];
    var i := 0;
    while i < n
      invariant 0 <= i <= n
      invariant |s| == i
      invariant forall k :: 0 <= k < i ==> s[k] == Letters[draws[k]]
    {
      s := s + [Letters[draws[i]]];
      i := i + 1;
    }
  }
}
